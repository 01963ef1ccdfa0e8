/** The breadth-first path search behind the evidence chain. */
module EvidenceChain {
  import opened Digraph
  import opened Distances

  ghost function Flipped(g: seq<Arc>): (r: seq<Arc>)
    ensures |r| == |g|
  {
    seq(|g|, i requires 0 <= i < |g| => Arc(g[i].to, g[i].from))
  }

  lemma FlippedArc(g: seq<Arc>, a: Node, b: Node)
    ensures HasArc(Flipped(g), a, b) <==> HasArc(g, b, a)
  {
    if HasArc(g, b, a) {
      var i :| 0 <= i < |g| && g[i] == Arc(b, a);
      assert Flipped(g)[i] == Arc(a, b);
    }
    if HasArc(Flipped(g), a, b) {
      var i :| 0 <= i < |g| && Flipped(g)[i] == Arc(a, b);
      assert g[i] == Arc(b, a);
    }
  }

  lemma FlippedWalk(g: seq<Arc>, w: seq<Node>, a: Node, b: Node)
    requires WalkFromTo(g, w, a, b)
    ensures WalkFromTo(Flipped(g), Reversed(w), b, a)
  {
    var r := Reversed(w);
    forall i | 0 <= i < |r| - 1
      ensures HasArc(Flipped(g), r[i], r[i + 1])
    {
      assert HasArc(g, w[|w| - 2 - i], w[|w| - 2 - i + 1]);
      FlippedArc(g, r[i], r[i + 1]);
    }
  }

  ghost predicate AllNonEmpty(paths: seq<seq<Node>>) {
    forall k :: 0 <= k < |paths| ==> |paths[k]| > 0
  }

  /** The end nodes of the queued paths. */
  ghost function Lasts(paths: seq<seq<Node>>): (r: seq<Node>)
    requires AllNonEmpty(paths)
    ensures |r| == |paths|
  {
    seq(|paths|, k requires 0 <= k < |paths| => paths[k][|paths[k]| - 1])
  }

  /** Every queued path leads from the start to a visited node in the recorded number of arcs. */
  ghost predicate PathsOk(g: seq<Arc>, start: Node, dist: map<Node, nat>, paths: seq<seq<Node>>)
    requires AllNonEmpty(paths)
  {
    forall k :: 0 <= k < |paths| ==>
      WalkFromTo(g, paths[k], start, paths[k][|paths[k]| - 1]) &&
      paths[k][|paths[k]| - 1] in dist && dist[paths[k][|paths[k]| - 1]] == |paths[k]| - 1
  }

  /** The first path into `end` is a shortest one. */
  lemma FirstHitIsShortest(g: seq<Arc>, start: Node, end: Node, dist: map<Node, nat>, paths: seq<seq<Node>>)
    requires |paths| > 0 && AllNonEmpty(paths) && PathsOk(g, start, dist, paths) && end !in dist
    requires BackwardState(Flipped(g), start, dist, Lasts(paths))
    requires HasArc(g, paths[0][|paths[0]| - 1], end)
    ensures WalkFromTo(g, paths[0] + [end], start, end) && IsDistance(g, start, end, |paths[0]|)
  {
    assert WalkFromTo(g, paths[0] + [end], start, end);
    forall w | WalkFromTo(g, w, start, end)
      ensures |w| >= |paths[0]| + 1
    {
      NoShorterHit(g, start, end, dist, paths, w);
    }
  }

  lemma NoShorterHit(g: seq<Arc>, start: Node, end: Node, dist: map<Node, nat>, paths: seq<seq<Node>>, w: seq<Node>)
    requires |paths| > 0 && AllNonEmpty(paths) && PathsOk(g, start, dist, paths) && end !in dist
    requires BackwardState(Flipped(g), start, dist, Lasts(paths)) && WalkFromTo(g, w, start, end)
    ensures |w| >= |paths[0]| + 1
  {
    hide BackwardState;
    FlippedWalk(g, w, start, end);
    BackwardPartial(Flipped(g), start, dist, Lasts(paths), Reversed(w));
  }

  /** When nothing is left to extend, `end` cannot be reached. */
  lemma ExhaustedUnreachable(g: seq<Arc>, start: Node, end: Node, dist: map<Node, nat>)
    requires BackwardState(Flipped(g), start, dist, []) && end !in dist
    ensures !Reaches(g, start, end)
  {
    if w :| WalkFromTo(g, w, start, end) {
      FlippedWalk(g, w, start, end);
      BackwardComplete(Flipped(g), start, dist, Reversed(w));
    }
  }

  /** The loop over the arcs for one dequeued path: report whether `end` is a child
      of its last node, and otherwise queue an extension for each new child. */
  method ExtendPath(graph: seq<Arc>, path: seq<Node>, start: Node, end: Node, seen: set<Node>, rest: seq<seq<Node>>,
                    ghost known: map<Node, nat>)
    returns (found: bool, visited: set<Node>, queue: seq<seq<Node>>, ghost dist: map<Node, nat>, ghost added: seq<Node>)
    requires |path| > 0 && AllNonEmpty(rest) && PathsOk(graph, start, known, rest)
    requires var last := path[|path| - 1];
             last in known && known[last] == |path| - 1 && WalkFromTo(graph, path, start, last) &&
             WalkOfLength(Flipped(graph), last, start, known[last])
    requires seen == known.Keys <= Endpoints(graph) + {start} && end !in seen
    ensures found ==> HasArc(graph, path[|path| - 1], end)
    ensures visited == dist.Keys <= Endpoints(graph) + {start} && end !in visited && seen <= visited
    ensures AllNonEmpty(queue) && PathsOk(graph, start, dist, queue)
    ensures Lasts(queue) == Lasts(rest) + added
    ensures dist == known ==> |queue| == |rest|
    ensures dist != known ==> seen < visited
    ensures !found ==> Scanned(Flipped(graph), start, known, path[|path| - 1], dist, added, |graph|)
  {
    hide Scanned, PathsOk, WalkFromTo, WalkOfLength;
    ghost var flip := Flipped(graph);
    found, visited, queue, dist, added := false, seen, rest, known, [];
    var nodeID := path[|path| - 1];
    ScanStart(flip, start, known, nodeID);
    for i := 0 to |graph|
      invariant known.Keys <= dist.Keys == visited <= Endpoints(graph) + {start} && end !in visited
      invariant nodeID in dist && dist[nodeID] == known[nodeID]
      invariant AllNonEmpty(queue) && PathsOk(graph, start, dist, queue)
      invariant Lasts(queue) == Lasts(rest) + added
      invariant (added == [] ==> dist == known) && (added != [] ==> known.Keys < dist.Keys)
      invariant Scanned(flip, start, known, nodeID, dist, added, i)
    {
      if graph[i].from == nodeID {
        var child := graph[i].to;
        if child == end {
          found := true;
          return;
        }
        if child !in visited {
          assert HasArc(graph, nodeID, child);
          ScanAdd(flip, start, known, nodeID, dist, added, i);
          visited := visited + {child};
          PathsKept(graph, start, dist, queue, child, known[nodeID] + 1);
          dist := dist[child := known[nodeID] + 1];
          AppendPath(graph, start, dist, queue, path, child);
          queue := queue + [path + [child]];
          added := added + [child];
          continue;
        }
      }
      ScanSkip(flip, start, known, nodeID, dist, added, i);
    }
    assert |Lasts(queue)| == |Lasts(rest)| + |added|;
    assert added != [] ==> added[0] in added;
  }

  /** A shortest path when there is one; otherwise the two names, which then do
      not form a path. */
  method FindPathBFS(graph: seq<Arc>, start: Node, end: Node) returns (path: seq<Node>)
    ensures Reaches(graph, start, end) ==>
              WalkFromTo(graph, path, start, end) && IsDistance(graph, start, end, |path| - 1)
    ensures !Reaches(graph, start, end) ==> path == [start, end] && !IsWalk(graph, path)
  {
    hide BackwardState, Scanned, IsDistance, PathsOk, WalkOfLength;
    if start == end {
      DistanceZero(graph, start);
      ReachesSelf(graph, start);
      return [start];
    }
    var queue := [[start]];
    var visited := {start};
    ghost var flip, dist := Flipped(graph), map[start := 0];
    BackwardStart(flip, start);
    PathsStart(graph, start);
    while |queue| > 0
      invariant visited == dist.Keys <= Endpoints(graph) + {start} && end !in visited
      invariant AllNonEmpty(queue) && PathsOk(graph, start, dist, queue)
      invariant BackwardState(flip, start, dist, Lasts(queue))
      decreases Endpoints(graph) + {start} - visited, |queue|
    {
      path := queue[0];
      PathsFront(graph, start, dist, queue);
      BackwardFront(flip, start, dist, Lasts(queue));
      ghost var before, known, rest := queue, dist, Lasts(queue[1..]);
      var found;
      ghost var added;
      found, visited, queue, dist, added := ExtendPath(graph, path, start, end, visited, queue[1..], known);
      if found {
        FirstHitIsShortest(graph, start, end, known, before);
        assert Reaches(graph, start, end);
        return path + [end];
      }
      BackwardStep(flip, start, known, path[|path| - 1], rest, dist, added);
    }
    ExhaustedUnreachable(graph, start, end, dist);
    path := [start, end];
    assert !WalkFromTo(graph, path, start, end);
  }

  lemma AppendPath(g: seq<Arc>, start: Node, dist: map<Node, nat>, paths: seq<seq<Node>>, path: seq<Node>, child: Node)
    requires AllNonEmpty(paths) && PathsOk(g, start, dist, paths) && |path| > 0 && WalkFromTo(g, path, start, path[|path| - 1])
    requires HasArc(g, path[|path| - 1], child) && child in dist && dist[child] == |path|
    ensures PathsOk(g, start, dist, paths + [path + [child]])
    ensures Lasts(paths + [path + [child]]) == Lasts(paths) + [child]
  {
    assert WalkFromTo(g, path + [child], start, child);
  }

  lemma PathsStart(g: seq<Arc>, start: Node)
    ensures PathsOk(g, start, map[start := 0], [[start]]) && Lasts([[start]]) == [start]
  {
    assert WalkFromTo(g, [start], start, start);
  }

  lemma PathsFront(g: seq<Arc>, start: Node, dist: map<Node, nat>, paths: seq<seq<Node>>)
    requires AllNonEmpty(paths) && PathsOk(g, start, dist, paths) && |paths| > 0
    ensures var p := paths[0];
            WalkFromTo(g, p, start, p[|p| - 1]) && p[|p| - 1] in dist && dist[p[|p| - 1]] == |p| - 1
    ensures AllNonEmpty(paths[1..]) && PathsOk(g, start, dist, paths[1..])
    ensures Lasts(paths)[1..] == Lasts(paths[1..])
  {
  }

  lemma PathsKept(g: seq<Arc>, start: Node, dist: map<Node, nat>, paths: seq<seq<Node>>, n: Node, d: nat)
    requires AllNonEmpty(paths) && PathsOk(g, start, dist, paths) && n !in dist
    ensures PathsOk(g, start, dist[n := d], paths)
  {
  }
}
