/** Depth timestamps: longest-path depth, whatever order the queue serves in. */
module Timestamps {
  import opened Digraph
  import opened Kahn
  import opened QueuePropagation

  /** A node of the phase-3 graph; its state is overwritten in place. */
  class GraphNode {
    const id: Node
    var state: NodeState

    constructor (id: Node, state: NodeState)
      ensures this.id == id && this.state == state
    {
      this.id := id;
      this.state := state;
    }
  }

  // ---------------------------------------------------------------------
  // Depth

  /** A walk into n whose earlier nodes all lie in s. */
  ghost predicate WalkThrough(g: seq<Arc>, s: set<Node>, w: seq<Node>, n: Node) {
    IsWalk(g, w) && w[|w| - 1] == n && forall k :: 0 <= k < |w| - 1 ==> w[k] in s
  }

  /** d arcs is the longest such walk. */
  ghost predicate IsDepth(g: seq<Arc>, s: set<Node>, n: Node, d: nat) {
    && (exists w {:trigger WalkThrough(g, s, w, n)} :: WalkThrough(g, s, w, n) && |w| == d + 1)
    && (forall w {:trigger WalkThrough(g, s, w, n)} :: WalkThrough(g, s, w, n) ==> |w| <= d + 1)
  }

  ghost predicate ParentClosed(g: seq<Arc>, s: set<Node>) {
    forall a, b :: HasArc(g, a, b) && b in s ==> a in s
  }

  lemma {:induction false} WalkIntoClosed(g: seq<Arc>, s: set<Node>, w: seq<Node>, k: nat)
    requires ParentClosed(g, s) && IsWalk(g, w) && w[|w| - 1] in s && k < |w|
    ensures w[k] in s
    decreases |w| - k
  {
    if k < |w| - 1 {
      WalkIntoClosed(g, s, w, k + 1);
      assert HasArc(g, w[k], w[k + 1]);
    }
  }

  function Depth(depth: map<Node, nat>, n: Node): nat {
    if n in depth then depth[n] else 0
  }

  ghost predicate DepthsThrough(g: seq<Arc>, s: set<Node>, depth: map<Node, nat>) {
    forall n :: IsDepth(g, s, n, Depth(depth, n))
  }

  lemma EarlierNodeIn(g: seq<Arc>, s: set<Node>, w: seq<Node>, n: Node)
    requires WalkThrough(g, s, w, n) && |w| >= 2
    ensures s != {}
  {
    assert w[0] in s;
  }

  lemma DepthsInitially(g: seq<Arc>, depth: map<Node, nat>)
    requires forall n :: n in depth ==> depth[n] == 0
    ensures DepthsThrough(g, {}, depth)
  {
    var none: set<Node> := {};
    forall n
      ensures IsDepth(g, none, n, 0)
    {
      assert WalkThrough(g, none, [n], n);
      forall w | WalkThrough(g, none, w, n)
        ensures |w| <= 1
      {
        if |w| >= 2 {
          EarlierNodeIn(g, none, w, n);
        }
      }
    }
  }

  /** Relaxing the arcs out of c turns depths through s into depths through s + {c}. */
  ghost predicate Relaxed(g: seq<Arc>, was: map<Node, nat>, c: Node, depth: map<Node, nat>, i: nat) {
    i <= |g| && forall n :: Depth(depth, n) == RelaxedDepth(g, was, c, n, i)
  }

  ghost function RelaxedDepth(g: seq<Arc>, was: map<Node, nat>, c: Node, n: Node, i: nat): nat
    requires i <= |g|
  {
    if (exists k :: 0 <= k < i && g[k] == Arc(c, n)) && Depth(was, n) < Depth(was, c) + 1
    then Depth(was, c) + 1 else Depth(was, n)
  }

  lemma RelaxedDepths(g: seq<Arc>, s: set<Node>, was: map<Node, nat>, c: Node, depth: map<Node, nat>)
    requires DepthsThrough(g, s, was) && Relaxed(g, was, c, depth, |g|)
    requires ParentClosed(g, s) && c !in s && forall p :: HasArc(g, p, c) ==> p in s
    ensures DepthsThrough(g, s + {c}, depth)
  {
    forall n
      ensures IsDepth(g, s + {c}, n, Depth(depth, n))
    {
      assert IsDepth(g, s, n, Depth(was, n)) && IsDepth(g, s, c, Depth(was, c));
      DeepestWalk(g, s, was, c, depth, n);
      forall w | WalkThrough(g, s + {c}, w, n)
        ensures |w| <= Depth(depth, n) + 1
      {
        NewWalkBound(g, s, was, c, w, n);
        if |w| >= 2 && w[|w| - 2] == c {
          assert HasArc(g, w[|w| - 2], w[|w| - 2 + 1]);
          var k :| 0 <= k < |g| && g[k] == Arc(c, n);
        }
      }
    }
  }

  lemma DeepestWalk(g: seq<Arc>, s: set<Node>, was: map<Node, nat>, c: Node, depth: map<Node, nat>, n: Node)
    requires DepthsThrough(g, s, was) && Relaxed(g, was, c, depth, |g|)
    ensures exists w :: WalkThrough(g, s + {c}, w, n) && |w| == Depth(depth, n) + 1
  {
    assert IsDepth(g, s, n, Depth(was, n)) && IsDepth(g, s, c, Depth(was, c));
    if Depth(depth, n) == Depth(was, n) {
      var w :| WalkThrough(g, s, w, n) && |w| == Depth(was, n) + 1;
      assert WalkThrough(g, s + {c}, w, n);
    } else {
      var w :| WalkThrough(g, s, w, c) && |w| == Depth(was, c) + 1;
      assert HasArc(g, c, n);
      assert WalkThrough(g, s + {c}, w + [n], n);
    }
  }

  lemma NewWalkBound(g: seq<Arc>, s: set<Node>, was: map<Node, nat>, c: Node, w: seq<Node>, n: Node)
    requires DepthsThrough(g, s, was) && ParentClosed(g, s) && c !in s && forall p :: HasArc(g, p, c) ==> p in s
    requires WalkThrough(g, s + {c}, w, n)
    ensures if |w| >= 2 && w[|w| - 2] == c then |w| <= Depth(was, c) + 2 else |w| <= Depth(was, n) + 1
  {
    assert IsDepth(g, s, n, Depth(was, n)) && IsDepth(g, s, c, Depth(was, c));
    if |w| >= 2 {
      var v := w[..|w| - 1];
      var p := w[|w| - 2];
      if p == c {
        if |v| >= 2 {
          assert HasArc(g, v[|v| - 2], v[|v| - 2 + 1]);
          forall k | 0 <= k < |v| - 1
            ensures v[k] in s
          {
            WalkIntoClosed(g, s, v[..|v| - 1], k);
          }
        }
        assert WalkThrough(g, s, v, c);
      } else {
        forall k | 0 <= k < |w| - 1
          ensures w[k] in s
        {
          WalkIntoClosed(g, s, v, k);
        }
        assert WalkThrough(g, s, w, n);
      }
    } else {
      assert WalkThrough(g, s, w, n);
    }
  }

  // ---------------------------------------------------------------------
  // The pass

  /** The loop over the arcs for one dequeued node. */
  method RelaxOut(g: seq<Arc>, nodes: set<Node>, was: map<Node, int>, cur: Node, rest: seq<Node>,
                  before: map<Node, nat>, ghost done: seq<Node>)
    returns (inDeg: map<Node, int>, depth: map<Node, nat>, queue: seq<Node>, ghost newly: seq<Node>)
    requires Running(g, nodes, was, done, [cur] + rest)
    ensures Releasing(g, nodes, was, cur, inDeg, newly, |g|)
    ensures queue == rest + newly
    ensures Relaxed(g, before, cur, depth, |g|)
  {
    hide Releasing, Forward;
    RunningFront(g, nodes, was, done, [cur] + rest);
    ReleaseStart(g, nodes, was, cur);
    inDeg, depth, queue, newly := was, before, rest, [];
    for i := 0 to |g|
      invariant Releasing(g, nodes, was, cur, inDeg, newly, i)
      invariant inDeg.Keys == nodes && queue == rest + newly
      invariant Relaxed(g, before, cur, depth, i)
      invariant Depth(depth, cur) == Depth(before, cur)
    {
      var e := g[i];
      if e.from != cur {
        ReleaseMiss(g, nodes, was, cur, inDeg, newly, i);
        RelaxMiss(g, before, cur, depth, i);
        continue;
      }
      assert e.to in Endpoints(g);
      ReleaseHit(g, nodes, was, SeqSet(done), cur, inDeg, newly, i);
      NotItsOwnParent(g, nodes, was, done, cur, rest, i);
      inDeg := inDeg[e.to := inDeg[e.to] - 1];
      RelaxHit(g, before, cur, depth, i);
      if Depth(depth, e.to) < Depth(depth, cur) + 1 {
        depth := depth[e.to := Depth(depth, cur) + 1];
      }
      if inDeg[e.to] == 0 {
        queue := queue + [e.to];
        newly := newly + [e.to];
      }
    }
  }

  lemma NotItsOwnParent(g: seq<Arc>, nodes: set<Node>, inDeg: map<Node, int>, done: seq<Node>, c: Node, rest: seq<Node>, i: nat)
    requires Running(g, nodes, inDeg, done, [c] + rest) && i < |g| && g[i].from == c
    ensures g[i].to != c
  {
    RunningFront(g, nodes, inDeg, done, [c] + rest);
    assert (done + ([c] + rest))[|done|] == c;
    NoPendingIff(g, SeqSet(done), c);
    assert HasArc(g, g[i].from, g[i].to);
  }

  lemma RelaxMiss(g: seq<Arc>, was: map<Node, nat>, c: Node, depth: map<Node, nat>, i: nat)
    requires i < |g| && Relaxed(g, was, c, depth, i) && g[i].from != c
    ensures Relaxed(g, was, c, depth, i + 1)
  {
    forall n
      ensures (exists k :: 0 <= k < i + 1 && g[k] == Arc(c, n)) <==> (exists k :: 0 <= k < i && g[k] == Arc(c, n))
    {
    }
  }

  lemma RelaxHit(g: seq<Arc>, was: map<Node, nat>, c: Node, depth: map<Node, nat>, i: nat)
    requires i < |g| && Relaxed(g, was, c, depth, i) && g[i].from == c && g[i].to != c
    requires Depth(depth, c) == Depth(was, c)
    ensures var m := g[i].to;
            var depth' := if Depth(depth, m) < Depth(depth, c) + 1 then depth[m := Depth(depth, c) + 1] else depth;
            Relaxed(g, was, c, depth', i + 1) && Depth(depth', c) == Depth(was, c)
  {
    var m := g[i].to;
    assert g[i] == Arc(c, m);
    var depth' := if Depth(depth, m) < Depth(depth, c) + 1 then depth[m := Depth(depth, c) + 1] else depth;
    forall n
      ensures Depth(depth', n) == RelaxedDepth(g, was, c, n, i + 1)
    {
      assert Depth(depth, n) == RelaxedDepth(g, was, c, n, i);
      assert n == m ==> exists k :: 0 <= k < i + 1 && g[k] == Arc(c, n);
      if n != m {
        assert (exists k :: 0 <= k < i + 1 && g[k] == Arc(c, n)) <==> (exists k :: 0 <= k < i && g[k] == Arc(c, n));
      }
    }
  }

  lemma StepDepths(g: seq<Arc>, nodes: set<Node>, inDeg: map<Node, int>, done: seq<Node>, c: Node, rest: seq<Node>,
                   was: map<Node, nat>, depth: map<Node, nat>)
    requires Running(g, nodes, inDeg, done, [c] + rest)
    requires DepthsThrough(g, SeqSet(done), was) && Relaxed(g, was, c, depth, |g|)
    ensures DepthsThrough(g, SeqSet(done + [c]), depth)
  {
    hide DepthsThrough, Relaxed;
    RunningFront(g, nodes, inDeg, done, [c] + rest);
    assert (done + ([c] + rest))[|done|] == c;
    NoPendingIff(g, SeqSet(done), c);
    assert ParentClosed(g, SeqSet(done)) by {
      forall a, b | HasArc(g, a, b) && b in SeqSet(done)
        ensures a in SeqSet(done)
      {
        var i :| 0 <= i < |done| && done[i] == b;
        assert a in done[..i];
      }
    }
    RelaxedDepths(g, SeqSet(done), was, c, depth);
    assert SeqSet(done + [c]) == SeqSet(done) + {c};
  }

  ghost function GroundedNodes(g: seq<Arc>, nodes: set<Node>): set<Node> {
    set n | n in nodes && Grounded(g, n)
  }

  /** A node, resolved or not, gets depth 0 exactly when none of its parents was resolved. */
  lemma DepthZeroIff(g: seq<Arc>, nodes: set<Node>, n: Node, d: nat)
    requires Endpoints(g) <= nodes && IsDepth(g, GroundedNodes(g, nodes), n, d)
    ensures d == 0 <==> forall p :: HasArc(g, p, n) ==> !Grounded(g, p)
  {
    hide Grounded;
    var s := GroundedNodes(g, nodes);
    if p :| HasArc(g, p, n) && Grounded(g, p) {
      assert p in Endpoints(g) by {
        assert Arc(p, n) in g;
      }
      assert WalkThrough(g, s, [p, n], n);
    }
    if d > 0 {
      var w :| WalkThrough(g, s, w, n) && |w| == d + 1;
      assert HasArc(g, w[d - 1], w[d - 1 + 1]);
    }
  }

  /** The depth of every node, counting walks whose earlier nodes have no cycle
      above them; on an acyclic graph these are all walks. */
  method TopologicalDepths(g: seq<Arc>, nodes: set<Node>) returns (depth: map<Node, nat>)
    requires Endpoints(g) <= nodes
    ensures DepthsThrough(g, GroundedNodes(g, nodes), depth)
  {
    hide Running, Releasing, DepthsThrough, Relaxed;
    var inDeg := InDegrees(g, nodes);
    var queue := NodesWithDegree(inDeg, true);
    depth := map n | n in queue :: 0;
    Seeded(g, nodes, inDeg, queue);
    DepthsInitially(g, depth);
    ghost var done: seq<Node> := [];
    assert SeqSet(done) == {};
    while |queue| > 0
      invariant Running(g, nodes, inDeg, done, queue)
      invariant DepthsThrough(g, SeqSet(done), depth)
      decreases |nodes| - |done|
    {
      RunningFront(g, nodes, inDeg, done, queue);
      var cur := queue[0];
      ghost var was, before, rest := inDeg, depth, queue[1..];
      assert queue == [cur] + rest;
      ghost var newly;
      inDeg, depth, queue, newly := RelaxOut(g, nodes, inDeg, cur, queue[1..], depth, done);
      Step(g, nodes, was, done, cur, rest, inDeg, newly, newly);
      StepDepths(g, nodes, was, done, cur, rest, before, depth);
      done := done + [cur];
    }
    assert queue == [];
    DoneIffGrounded(g, nodes, inDeg, done);
    assert SeqSet(done) == GroundedNodes(g, nodes);
  }

  /** Every node object is overwritten with its depth. */
  method AssignTimestampsFromTopologicalOrder(nodes: map<Node, GraphNode>, arcs: seq<Arc>)
    requires Endpoints(arcs) <= nodes.Keys
    requires forall n :: n in nodes ==> nodes[n].id == n
    modifies nodes.Values
    ensures forall n :: n in nodes ==>
              exists d: nat :: IsDepth(arcs, GroundedNodes(arcs, nodes.Keys), n, d)
                            && nodes[n].state == old(nodes[n].state).(timestamp := d as real)
  {
    var depth := TopologicalDepths(arcs, nodes.Keys);
    var left := nodes.Keys;
    while left != {}
      invariant left <= nodes.Keys
      invariant forall n :: n in left ==> nodes[n].state == old(nodes[n].state)
      invariant forall n :: n in nodes && n !in left ==>
                  nodes[n].state == old(nodes[n].state).(timestamp := Depth(depth, n) as real)
      decreases left
    {
      var n :| n in left;
      left := left - {n};
      nodes[n].state := nodes[n].state.(timestamp := Depth(depth, n) as real);
    }
    forall n | n in nodes
      ensures exists d: nat :: IsDepth(arcs, GroundedNodes(arcs, nodes.Keys), n, d)
                            && nodes[n].state == old(nodes[n].state).(timestamp := d as real)
    {
      assert IsDepth(arcs, GroundedNodes(arcs, nodes.Keys), n, Depth(depth, n));
    }
  }

  // ---------------------------------------------------------------------
  // Consequences

  lemma DepthUnique(g: seq<Arc>, s: set<Node>, n: Node, d: nat, e: nat)
    requires IsDepth(g, s, n, d) && IsDepth(g, s, n, e)
    ensures d == e
  {
  }

  /** Any two runs stamp every node with the same depth, whatever order their queues served. */
  lemma RunsAgree(g: seq<Arc>, nodes: set<Node>, one: map<Node, nat>, other: map<Node, nat>, n: Node)
    requires DepthsThrough(g, GroundedNodes(g, nodes), one) && DepthsThrough(g, GroundedNodes(g, nodes), other)
    ensures Depth(one, n) == Depth(other, n)
  {
    DepthUnique(g, GroundedNodes(g, nodes), n, Depth(one, n), Depth(other, n));
  }

  /** On an acyclic graph depth is the longest-path depth, and it grows along every arc. */
  lemma DepthGrows(g: seq<Arc>, nodes: set<Node>, a: Node, b: Node, da: nat, db: nat)
    requires Acyclic(g) && Endpoints(g) <= nodes && HasArc(g, a, b)
    requires IsDepth(g, GroundedNodes(g, nodes), a, da) && IsDepth(g, GroundedNodes(g, nodes), b, db)
    ensures da < db
  {
    var s := GroundedNodes(g, nodes);
    var w :| WalkThrough(g, s, w, a) && |w| == da + 1;
    AcyclicGrounded(g, a);
    assert Arc(a, b) in g;
    assert WalkThrough(g, s, w + [b], b);
  }

  lemma AcyclicDepthIsLongestWalk(g: seq<Arc>, nodes: set<Node>, n: Node, d: nat, w: seq<Node>)
    requires Acyclic(g) && Endpoints(g) <= nodes && IsDepth(g, GroundedNodes(g, nodes), n, d)
    requires IsWalk(g, w) && w[|w| - 1] == n
    ensures |w| <= d + 1
  {
    forall k | 0 <= k < |w| - 1
      ensures w[k] in GroundedNodes(g, nodes)
    {
      AcyclicGrounded(g, w[k]);
      assert HasArc(g, w[k], w[k + 1]);
      assert Arc(w[k], w[k + 1]) in g;
    }
    assert WalkThrough(g, GroundedNodes(g, nodes), w, n);
  }
}
