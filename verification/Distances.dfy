/** Shortest directed distances: what they are, and the two breadth-first
    searches of the engine that compute them. */
module Distances {
  import opened Digraph

  /** d is the number of arcs on a shortest walk from a to b. */
  ghost predicate IsDistance(g: seq<Arc>, a: Node, b: Node, d: nat) {
    && (exists w {:trigger WalkFromTo(g, w, a, b)} :: WalkFromTo(g, w, a, b) && |w| == d + 1)
    && (forall w {:trigger WalkFromTo(g, w, a, b)} :: WalkFromTo(g, w, a, b) ==> |w| >= d + 1)
  }

  lemma DistanceUnique(g: seq<Arc>, a: Node, b: Node, d: nat, e: nat)
    requires IsDistance(g, a, b, d) && IsDistance(g, a, b, e)
    ensures d == e
  {
  }

  lemma DistanceZero(g: seq<Arc>, a: Node)
    ensures IsDistance(g, a, a, 0)
  {
    assert WalkFromTo(g, [a], a, a);
  }

  // ---------------------------------------------------------------------
  // Distances to a target, backwards over the arcs

  /** What the backward search knows while `queue` is waiting: the recorded numbers
      are lengths of walks to the target, at most one more than those in the front
      of the queue; nodes not waiting have recorded parents, no farther than one
      more than they are. */
  ghost predicate BackwardState(g: seq<Arc>, target: Node, dist: map<Node, nat>, queue: seq<Node>) {
    && target in dist && dist[target] == 0
    && (forall n :: n in dist ==> WalkOfLength(g, n, target, dist[n]))
    && Layered(dist, queue)
    && (forall n, p :: n in dist && n !in queue && HasArc(g, p, n) ==> p in dist && dist[p] <= dist[n] + 1)
  }

  /** The queue is sorted by distance, spans at most two layers, and nothing
      recorded lies beyond its second one. */
  ghost predicate Layered(dist: map<Node, nat>, queue: seq<Node>) {
    && (forall n :: n in queue ==> n in dist)
    && (forall i, j :: 0 <= i < j < |queue| ==> dist[queue[i]] <= dist[queue[j]])
    && (queue != [] ==> forall n :: n in dist ==> dist[n] <= dist[queue[0]] + 1)
    && (queue != [] ==> forall n :: n in dist && n !in queue ==> dist[n] <= dist[queue[0]])
  }

  ghost predicate WalkOfLength(g: seq<Arc>, a: Node, b: Node, d: nat) {
    exists w {:trigger WalkFromTo(g, w, a, b)} :: WalkFromTo(g, w, a, b) && |w| == d + 1
  }

  lemma PrependArc(g: seq<Arc>, p: Node, n: Node, t: Node, d: nat)
    requires HasArc(g, p, n) && WalkOfLength(g, n, t, d)
    ensures WalkOfLength(g, p, t, d + 1)
  {
    var w :| WalkFromTo(g, w, n, t) && |w| == d + 1;
    assert WalkFromTo(g, [p] + w, p, t);
  }

  /** Once nothing is waiting, the recorded number bounds every walk. */
  lemma {:induction false} BackwardComplete(g: seq<Arc>, target: Node, dist: map<Node, nat>, w: seq<Node>)
    requires BackwardState(g, target, dist, [])
    requires IsWalk(g, w) && w[|w| - 1] == target
    ensures w[0] in dist && dist[w[0]] <= |w| - 1
    decreases |w|
  {
    if |w| > 1 {
      assert HasArc(g, w[0], w[1]);
      BackwardComplete(g, target, dist, w[1..]);
    }
  }

  /** While some node is waiting, a walk to the target either starts at a recorded
      node that is no farther than its length, or is longer than anything recorded
      at the front of the queue. */
  lemma {:induction false} BackwardPartial(g: seq<Arc>, target: Node, dist: map<Node, nat>, queue: seq<Node>, w: seq<Node>)
    requires BackwardState(g, target, dist, queue) && queue != []
    requires IsWalk(g, w) && w[|w| - 1] == target
    ensures (w[0] in dist && dist[w[0]] <= |w| - 1) || |w| - 1 >= dist[queue[0]] + 1
    decreases |w|
  {
    if |w| > 1 {
      assert HasArc(g, w[0], w[1]);
      BackwardPartial(g, target, dist, queue, w[1..]);
      if w[1] in queue {
        var i :| 0 <= i < |queue| && queue[i] == w[1];
      }
    }
  }

  ghost predicate DistancesTo(g: seq<Arc>, target: Node, dist: map<Node, nat>) {
    forall n :: (n in dist <==> Reaches(g, n, target)) && (n in dist ==> IsDistance(g, n, target, dist[n]))
  }

  lemma BackwardDone(g: seq<Arc>, target: Node, dist: map<Node, nat>)
    requires BackwardState(g, target, dist, [])
    ensures DistancesTo(g, target, dist)
  {
    forall n
      ensures (n in dist <==> Reaches(g, n, target)) && (n in dist ==> IsDistance(g, n, target, dist[n]))
    {
      if n in dist {
        assert WalkOfLength(g, n, target, dist[n]);
      }
      forall w | WalkFromTo(g, w, n, target)
        ensures n in dist && |w| >= dist[n] + 1
      {
        BackwardComplete(g, target, dist, w);
      }
    }
  }

  /** Half way through the arcs, with c taken off the queue: `added` lists the
      nodes recorded since, all one farther than c. */
  ghost predicate Scanned(g: seq<Arc>, target: Node, known: map<Node, nat>, c: Node,
                          dist: map<Node, nat>, added: seq<Node>, i: nat) {
    && c in known && known.Keys <= dist.Keys && i <= |g|
    && (forall n :: n in known ==> dist[n] == known[n])
    && (forall n :: n in added <==> n in dist && n !in known)
    && (forall n :: n in added ==> dist[n] == known[c] + 1 && WalkOfLength(g, n, target, dist[n]))
    && (forall k :: 0 <= k < i && g[k].to == c ==> g[k].from in dist)
    && (added == [] ==> dist == known)
  }

  lemma ScanStart(g: seq<Arc>, target: Node, known: map<Node, nat>, c: Node)
    requires c in known
    ensures Scanned(g, target, known, c, known, [], 0)
  {
  }

  lemma ScanSkip(g: seq<Arc>, target: Node, known: map<Node, nat>, c: Node, dist: map<Node, nat>, added: seq<Node>, i: nat)
    requires i < |g| && Scanned(g, target, known, c, dist, added, i) && (g[i].to == c ==> g[i].from in dist)
    ensures Scanned(g, target, known, c, dist, added, i + 1)
  {
  }

  lemma ScanAdd(g: seq<Arc>, target: Node, known: map<Node, nat>, c: Node, dist: map<Node, nat>, added: seq<Node>, i: nat)
    requires i < |g| && Scanned(g, target, known, c, dist, added, i) && g[i].to == c && g[i].from !in dist
    requires WalkOfLength(g, c, target, known[c])
    ensures Scanned(g, target, known, c, dist[g[i].from := known[c] + 1], added + [g[i].from], i + 1)
  {
    assert HasArc(g, g[i].from, c);
    PrependArc(g, g[i].from, c, target, known[c]);
  }

  lemma LayeredStep(g: seq<Arc>, target: Node, known: map<Node, nat>, c: Node, rest: seq<Node>,
                    dist: map<Node, nat>, added: seq<Node>)
    requires Layered(known, [c] + rest)
    requires Scanned(g, target, known, c, dist, added, |g|)
    ensures Layered(dist, rest + added)
    ensures forall n :: n in dist ==> dist[n] <= known[c] + 1
  {
    var queue, queue' := [c] + rest, rest + added;
    assert queue[0] == c;
    forall i | 0 <= i < |rest|
      ensures rest[i] in known && known[c] <= known[rest[i]]
    {
      assert queue[i + 1] == rest[i];
    }
    forall i, j | 0 <= i < j < |queue'|
      ensures dist[queue'[i]] <= dist[queue'[j]]
    {
      if j < |rest| {
        assert queue'[i] == queue[i + 1] && queue'[j] == queue[j + 1];
      } else {
        assert queue'[j] in added;
        assert i >= |rest| ==> queue'[i] in added;
      }
    }
    forall n | n in dist && n !in queue' && queue' != []
      ensures dist[n] <= dist[queue'[0]]
    {
      assert n !in added && n in known;
      assert n in queue ==> n == c;
      assert queue'[0] in rest || queue'[0] in added;
    }
  }

  /** Taking the front node off the queue and appending its new parents. */
  lemma BackwardStep(g: seq<Arc>, target: Node, known: map<Node, nat>, c: Node, rest: seq<Node>,
                     dist: map<Node, nat>, added: seq<Node>)
    requires BackwardState(g, target, known, [c] + rest)
    requires Scanned(g, target, known, c, dist, added, |g|)
    ensures BackwardState(g, target, dist, rest + added)
  {
    hide Layered;
    var queue, queue' := [c] + rest, rest + added;
    LayeredStep(g, target, known, c, rest, dist, added);
    forall n, p | n in dist && n !in queue' && HasArc(g, p, n)
      ensures p in dist && dist[p] <= dist[n] + 1
    {
      assert n !in added && n in known;
      assert n != c ==> n !in queue;
    }
  }

  method ComputeDistances(graph: seq<Arc>, target: Node) returns (dist: map<Node, nat>)
    ensures DistancesTo(graph, target, dist)
  {
    hide BackwardState, Scanned, DistancesTo;
    dist := map[];
    var queue := [target];
    dist := dist[target := 0];
    ghost var universe := Endpoints(graph) + {target};
    BackwardStart(graph, target);
    while |queue| > 0
      invariant dist.Keys <= universe
      invariant BackwardState(graph, target, dist, queue)
      decreases universe - dist.Keys, |queue|
    {
      BackwardFront(graph, target, dist, queue);
      var current := queue[0];
      queue := queue[1..];
      ghost var rest, known, added := queue, dist, [];
      ScanStart(graph, target, known, current);
      for i := 0 to |graph|
        invariant current in dist && known.Keys <= dist.Keys <= universe && dist[current] == known[current]
        invariant queue == rest + added && (added == [] ==> dist == known) && (added != [] ==> known.Keys < dist.Keys)
        invariant Scanned(graph, target, known, current, dist, added, i)
      {
        var e := graph[i];
        if e.to == current && e.from !in dist {
          ScanAdd(graph, target, known, current, dist, added, i);
          dist := dist[e.from := dist[current] + 1];
          queue := queue + [e.from];
          added := added + [e.from];
        } else {
          ScanSkip(graph, target, known, current, dist, added, i);
        }
      }
      BackwardStep(graph, target, known, current, rest, dist, added);
    }
    BackwardDone(graph, target, dist);
  }

  lemma BackwardStart(g: seq<Arc>, target: Node)
    ensures BackwardState(g, target, map[target := 0], [target])
  {
    assert WalkFromTo(g, [target], target, target);
  }

  lemma BackwardFront(g: seq<Arc>, target: Node, dist: map<Node, nat>, queue: seq<Node>)
    requires BackwardState(g, target, dist, queue) && |queue| > 0
    ensures queue[0] in dist && WalkOfLength(g, queue[0], target, dist[queue[0]])
    ensures queue == [queue[0]] + queue[1..]
  {
  }

  // ---------------------------------------------------------------------
  // Backward reachability

  /** Stacked nodes are the target or reached; the parents of every other such node are reached. */
  ghost predicate ReachingBack(g: seq<Arc>, target: Node, reachable: set<Node>, stack: seq<Node>) {
    && reachable <= Endpoints(g)
    && (forall n :: n in reachable ==> Ancestor(g, n, target))
    && (forall n :: n in stack ==> n == target || n in reachable)
    && (forall a, b :: HasArc(g, a, b) && (b == target || b in reachable) && b !in stack ==> a in reachable)
  }

  lemma ReachBackOne(g: seq<Arc>, a: Node, cur: Node, target: Node)
    requires HasArc(g, a, cur) && (cur == target || Ancestor(g, cur, target))
    ensures Ancestor(g, a, target) && a in Endpoints(g)
  {
    ArcIsAncestor(g, a, cur);
    if cur != target {
      AncestorTrans(g, a, cur, target);
    }
    assert Arc(a, cur) in g;
  }

  /** The nodes from which the target can be reached, found backwards from it. */
  method BackwardReachable(graph: seq<Arc>, target: Node) returns (reachable: set<Node>)
    ensures forall n :: n in reachable <==> Ancestor(graph, n, target)
  {
    reachable := {};
    var stack := [target];
    while |stack| > 0
      invariant ReachingBack(graph, target, reachable, stack)
      decreases Endpoints(graph) - reachable, |stack|
    {
      var cur := stack[|stack| - 1];
      ghost var was, rest := reachable, stack[..|stack| - 1];
      assert stack == rest + [cur];
      stack := stack[..|stack| - 1];
      for i := 0 to |graph|
        invariant was <= reachable <= Endpoints(graph) && (reachable == was ==> stack == rest)
        invariant forall n :: n in reachable ==> Ancestor(graph, n, target)
        invariant forall n :: n in stack ==> n == target || n in reachable
        invariant forall n :: n in rest || n in reachable - was ==> n in stack
        invariant forall k :: 0 <= k < i && graph[k].to == cur ==> graph[k].from in reachable
      {
        var e := graph[i];
        if e.to == cur && e.from !in reachable {
          ReachBackOne(graph, e.from, cur, target);
          reachable := reachable + {e.from};
          stack := stack + [e.from];
        }
      }
      forall a, b | HasArc(graph, a, b) && (b == target || b in reachable) && b !in stack
        ensures a in reachable
      {
        var k :| 0 <= k < |graph| && graph[k] == Arc(a, b);
      }
    }
    forall n | Ancestor(graph, n, target)
      ensures n in reachable
    {
      var w :| WalkFromTo(graph, w, n, target) && |w| >= 2;
      ClosedUnderParents(graph, {target}, reachable, w);
    }
  }
}
