/** The d-separation search and its marking helpers. */
module DSeparation {
  import opened Digraph
  import opened DSepTheory

  datatype PathNode = PathNode(node: Node, from: Node)

  /** A table of marks that is passed by reference and only ever grows. */
  class Marks<T(==)> {
    var marked: set<T>

    constructor ()
      ensures marked == {}
    {
      marked := {};
    }
  }

  /** The keys that a lookup in a boolean map answers with true. */
  function TrueKeys(m: map<Node, bool>): set<Node> {
    set k | k in m && m[k]
  }

  // ---------------------------------------------------------------------
  // What the search explores

  /** One move of the search; an empty `from` stands for the start of the search. */
  ghost predicate Move(g: seq<Arc>, z: set<Node>, anc: set<Node>, from: Node, node: Node, next: Node) {
    Adjacent(g, node, next) && next != from &&
    (from == "" || ActiveTriplet(g, from, node, next, z, anc))
  }

  function Before(from: Node, w: seq<Node>, i: nat): Node
    requires i <= |w|
  {
    if i == 0 then from else w[i - 1]
  }

  ghost predicate MoveAt(g: seq<Arc>, z: set<Node>, anc: set<Node>, from: Node, w: seq<Node>, i: nat) {
    i + 1 < |w| ==> Move(g, z, anc, Before(from, w, i), w[i], w[i + 1])
  }

  ghost predicate Moves(g: seq<Arc>, z: set<Node>, anc: set<Node>, from: Node, w: seq<Node>) {
    forall i: nat :: MoveAt(g, z, anc, from, w, i)
  }

  ghost predicate SearchFinds(g: seq<Arc>, x: Node, y: Node, z: set<Node>, anc: set<Node>, from: Node) {
    exists w :: Joins(w, x, y) && Moves(g, z, anc, from, w)
  }

  /** A visited state is finished when all its moves lead to visited states
      other than the target. */
  ghost predicate Finished(g: seq<Arc>, z: set<Node>, anc: set<Node>, target: Node, marked: set<PathNode>, s: PathNode) {
    forall next :: Move(g, z, anc, s.from, s.node, next) ==> next != target && PathNode(next, s.node) in marked
  }

  ghost function States(g: seq<Arc>, x: Node): set<PathNode> {
    var u := Endpoints(g) + {x, ""};
    set a, b | a in u && b in u :: PathNode(a, b)
  }

  // ---------------------------------------------------------------------
  // The engine

  method HasEdge(graph: seq<Arc>, from: Node, to: Node) returns (found: bool)
    ensures found <==> HasArc(graph, from, to)
  {
    for i := 0 to |graph|
      invariant Arc(from, to) !in graph[..i]
    {
      if graph[i].from == from && graph[i].to == to {
        return true;
      }
    }
    assert graph[..|graph|] == graph;
    return false;
  }

  method GetNeighbors(graph: seq<Arc>, node: Node) returns (neighbors: seq<Node>)
    ensures forall n :: n in neighbors <==> Adjacent(graph, node, n)
  {
    neighbors := [];
    for i := 0 to |graph|
      invariant forall n :: n in neighbors <==> Adjacent(graph[..i], node, n)
    {
      ghost var was := neighbors;
      assert graph[..i + 1] == graph[..i] + [graph[i]];
      if graph[i].from == node {
        neighbors := neighbors + [graph[i].to];
      }
      if graph[i].to == node {
        neighbors := neighbors + [graph[i].from];
      }
    }
    assert graph[..|graph|] == graph;
  }

  method IsActiveTriplet(graph: seq<Arc>, a: Node, b: Node, c: Node,
                         conditioned: map<Node, bool>, condAncestors: set<Node>)
    returns (active: bool)
    ensures active <==> a == "" || ActiveTriplet(graph, a, b, c, TrueKeys(conditioned), condAncestors)
  {
    if a == "" {
      return true;
    }
    var ab := HasEdge(graph, a, b);
    var cb := HasEdge(graph, c, b);
    if ab && cb {
      if (b in conditioned && conditioned[b]) || b in condAncestors {
        return true;
      }
      return false;
    }
    if b in conditioned && conditioned[b] {
      return false;
    }
    return true;
  }

  /** `open` holds the states still on the call stack. */
  method HasActivePath(graph: seq<Arc>, current: Node, target: Node,
                       conditioned: map<Node, bool>, condAncestors: set<Node>,
                       visited: Marks<PathNode>, prev: Node,
                       ghost start: Node, ghost open: set<PathNode>)
    returns (found: bool)
    requires PathNode(current, prev) in States(graph, start)
    requires visited.marked <= States(graph, start)
    requires forall s :: s in visited.marked - open ==>
               Finished(graph, TrueKeys(conditioned), condAncestors, target, visited.marked, s)
    modifies visited
    ensures old(visited.marked) <= visited.marked <= States(graph, start)
    ensures found ==> SearchFinds(graph, current, target, TrueKeys(conditioned), condAncestors, prev)
    ensures !found ==> current != target && PathNode(current, prev) in visited.marked
    ensures !found ==> forall s :: s in visited.marked - open ==>
               Finished(graph, TrueKeys(conditioned), condAncestors, target, visited.marked, s)
    decreases States(graph, start) - visited.marked
  {
    ghost var z := TrueKeys(conditioned);
    if current == target {
      assert Joins([current], current, target) && Moves(graph, z, condAncestors, prev, [current]);
      return true;
    }
    var key := PathNode(current, prev);
    if key in visited.marked {
      return false;
    }
    visited.marked := visited.marked + {key};
    var neighbors := GetNeighbors(graph, current);
    ghost var open' := open + {key};
    forall s | s in visited.marked - open'
      ensures Finished(graph, z, condAncestors, target, visited.marked, s)
    {
      assert Finished(graph, z, condAncestors, target, old(visited.marked), s);
    }
    for i := 0 to |neighbors|
      invariant old(visited.marked) + {key} <= visited.marked <= States(graph, start)
      invariant forall s :: s in visited.marked - open' ==>
                  Finished(graph, z, condAncestors, target, visited.marked, s)
      invariant forall k :: 0 <= k < i && Move(graph, z, condAncestors, prev, current, neighbors[k]) ==>
                  neighbors[k] != target && PathNode(neighbors[k], current) in visited.marked
    {
      var next := neighbors[i];
      if next != prev {
        var active := IsActiveTriplet(graph, prev, current, next, conditioned, condAncestors);
        if active {
          NeighborState(graph, start, current, prev, next);
          var deeper := HasActivePath(graph, next, target, conditioned, condAncestors, visited, current, start, open');
          if deeper {
            ExtendMoves(graph, z, condAncestors, prev, current, next, target);
            return true;
          }
        }
      }
    }
    assert Finished(graph, z, condAncestors, target, visited.marked, key);
    return false;
  }

  method IsDSeparated(graph: seq<Arc>, x: Node, y: Node, conditioned: map<Node, bool>)
    returns (separated: bool)
    ensures separated <==> !SearchFinds(graph, x, y, TrueKeys(conditioned), AncestorsOf(graph, conditioned.Keys), "")
    ensures NamesNonEmpty(graph) ==>
              (separated <==> Separated(graph, x, y, TrueKeys(conditioned), conditioned.Keys))
    ensures NamesNonEmpty(graph) && Acyclic(graph) && TrueKeys(conditioned) == conditioned.Keys ==>
              (separated <==> PearlSeparated(graph, x, y, conditioned.Keys))
    ensures NamesNonEmpty(graph) && Adjacent(graph, x, y) ==> !separated
  {
    var condAncestors := AllAncestors(graph, conditioned);
    var visited := new Marks<PathNode>();
    var found := HasActivePath(graph, x, y, conditioned, condAncestors, visited, "", x, {});
    separated := !found;
    if !found && SearchFinds(graph, x, y, TrueKeys(conditioned), condAncestors, "") {
      var w :| Joins(w, x, y) && Moves(graph, TrueKeys(conditioned), condAncestors, "", w);
      ClosedSearchMisses(graph, TrueKeys(conditioned), condAncestors, y, visited.marked, w, |w| - 1);
      assert false;
    }
    if NamesNonEmpty(graph) {
      SearchIsSeparation(graph, x, y, TrueKeys(conditioned), conditioned.Keys);
      if Adjacent(graph, x, y) {
        AdjacentNeverSeparated(graph, x, y, TrueKeys(conditioned), conditioned.Keys);
      }
      if Acyclic(graph) {
        SeparatedIsPearl(graph, x, y, conditioned.Keys);
      }
    }
  }

  // ---------------------------------------------------------------------
  // Ancestor and descendant marking

  ghost predicate ParentsMarked(g: seq<Arc>, marked: set<Node>, n: Node) {
    forall e :: e in g && e.to == n ==> e.from in marked
  }

  ghost predicate ChildrenMarked(g: seq<Arc>, marked: set<Node>, n: Node) {
    forall e :: e in g && e.from == n ==> e.to in marked
  }

  method MarkAncestors(graph: seq<Arc>, node: Node, result: Marks<Node>, ghost open: set<Node>)
    requires result.marked <= Endpoints(graph)
    requires forall n :: n in result.marked - open ==> ParentsMarked(graph, result.marked, n)
    modifies result
    ensures old(result.marked) <= result.marked <= Endpoints(graph)
    ensures ParentsMarked(graph, result.marked, node)
    ensures forall n :: n in result.marked - open ==> ParentsMarked(graph, result.marked, n)
    ensures forall n :: n in result.marked - old(result.marked) ==> Ancestor(graph, n, node)
    decreases Endpoints(graph) - result.marked
  {
    for i := 0 to |graph|
      invariant old(result.marked) <= result.marked <= Endpoints(graph)
      invariant forall k :: 0 <= k < i && graph[k].to == node ==> graph[k].from in result.marked
      invariant forall n :: n in result.marked - open ==> ParentsMarked(graph, result.marked, n)
      invariant forall n :: n in result.marked - old(result.marked) ==> Ancestor(graph, n, node)
    {
      var e := graph[i];
      if e.to == node && e.from !in result.marked {
        ArcIsAncestor(graph, e.from, node);
        result.marked := result.marked + {e.from};
        ghost var before := result.marked;
        forall n | n in before - (open + {e.from})
          ensures ParentsMarked(graph, before, n)
        {
          assert ParentsMarked(graph, before - {e.from}, n);
        }
        MarkAncestors(graph, e.from, result, open + {e.from});
        forall n | n in result.marked - before
          ensures Ancestor(graph, n, node)
        {
          AncestorTrans(graph, n, e.from, node);
        }
      }
    }
  }

  method MarkDescendants(graph: seq<Arc>, node: Node, result: Marks<Node>, ghost open: set<Node>)
    requires result.marked <= Endpoints(graph)
    requires forall n :: n in result.marked - open ==> ChildrenMarked(graph, result.marked, n)
    modifies result
    ensures old(result.marked) <= result.marked <= Endpoints(graph)
    ensures ChildrenMarked(graph, result.marked, node)
    ensures forall n :: n in result.marked - open ==> ChildrenMarked(graph, result.marked, n)
    ensures forall n :: n in result.marked - old(result.marked) ==> Ancestor(graph, node, n)
    decreases Endpoints(graph) - result.marked
  {
    for i := 0 to |graph|
      invariant old(result.marked) <= result.marked <= Endpoints(graph)
      invariant forall k :: 0 <= k < i && graph[k].from == node ==> graph[k].to in result.marked
      invariant forall n :: n in result.marked - open ==> ChildrenMarked(graph, result.marked, n)
      invariant forall n :: n in result.marked - old(result.marked) ==> Ancestor(graph, node, n)
    {
      var e := graph[i];
      if e.from == node && e.to !in result.marked {
        ArcIsAncestor(graph, node, e.to);
        result.marked := result.marked + {e.to};
        ghost var before := result.marked;
        forall n | n in before - (open + {e.to})
          ensures ChildrenMarked(graph, before, n)
        {
          assert ChildrenMarked(graph, before - {e.to}, n);
        }
        MarkDescendants(graph, e.to, result, open + {e.to});
        forall n | n in result.marked - before
          ensures Ancestor(graph, node, n)
        {
          AncestorTrans(graph, node, e.to, n);
        }
      }
    }
  }

  /** The order in which the conditioned keys are visited does not matter. */
  method AllAncestors(graph: seq<Arc>, conditioned: map<Node, bool>) returns (result: set<Node>)
    ensures result == AncestorsOf(graph, conditioned.Keys)
  {
    var marks := new Marks<Node>();
    var left := conditioned.Keys;
    while left != {}
      invariant left <= conditioned.Keys
      invariant marks.marked <= Endpoints(graph)
      invariant forall n :: n in marks.marked || n in conditioned.Keys - left ==> ParentsMarked(graph, marks.marked, n)
      invariant forall n :: n in marks.marked ==> exists d :: d in conditioned.Keys && Ancestor(graph, n, d)
      decreases left
    {
      var node :| node in left;
      left := left - {node};
      MarkAncestors(graph, node, marks, {});
    }
    result := marks.marked;
    forall n
      ensures n in result <==> n in AncestorsOf(graph, conditioned.Keys)
    {
      AncestorsOfIff(graph, conditioned.Keys, n);
      if d :| d in conditioned.Keys && Ancestor(graph, n, d) {
        var w :| WalkFromTo(graph, w, n, d) && |w| >= 2;
        assert forall a :: a in result || a in conditioned.Keys ==> ParentsMarked(graph, result, a);
        ClosedUnderParents(graph, conditioned.Keys, result, w);
      }
    }
  }

  method Descendants(graph: seq<Arc>, node: Node) returns (result: set<Node>)
    ensures forall n :: n in result <==> Ancestor(graph, node, n)
  {
    var marks := new Marks<Node>();
    MarkDescendants(graph, node, marks, {});
    result := marks.marked;
    forall n | Ancestor(graph, node, n)
      ensures n in result
    {
      var w :| WalkFromTo(graph, w, node, n) && |w| >= 2;
      assert forall a :: a in result ==> ChildrenMarked(graph, result, a);
      ClosedUnderChildren(graph, {node}, result, w);
    }
  }

  // ---------------------------------------------------------------------
  // The search decides separation

  ghost predicate NamesNonEmpty(g: seq<Arc>) {
    "" !in Endpoints(g)
  }

  lemma NeighborState(g: seq<Arc>, x: Node, node: Node, from: Node, next: Node)
    requires PathNode(node, from) in States(g, x) && Adjacent(g, node, next)
    ensures PathNode(next, node) in States(g, x)
  {
    assert next in Endpoints(g) by {
      assert Arc(node, next) in g || Arc(next, node) in g;
    }
  }

  lemma ExtendMoves(g: seq<Arc>, z: set<Node>, anc: set<Node>, from: Node, node: Node, next: Node, target: Node)
    requires Move(g, z, anc, from, node, next)
    requires SearchFinds(g, next, target, z, anc, node)
    ensures SearchFinds(g, node, target, z, anc, from)
  {
    var w :| Joins(w, next, target) && Moves(g, z, anc, node, w);
    var v := [node] + w;
    forall i: nat
      ensures MoveAt(g, z, anc, from, v, i)
    {
      if i > 0 {
        assert MoveAt(g, z, anc, node, w, i - 1);
      }
    }
    assert Joins(v, node, target);
  }

  /** When every visited state is finished, no sequence of moves gets to the target. */
  lemma {:induction false} ClosedSearchMisses(g: seq<Arc>, z: set<Node>, anc: set<Node>, target: Node,
                                              marked: set<PathNode>, w: seq<Node>, k: nat)
    requires |w| >= 1 && Moves(g, z, anc, "", w) && k < |w|
    requires w[0] != target && PathNode(w[0], "") in marked
    requires forall s :: s in marked ==> Finished(g, z, anc, target, marked, s)
    ensures w[k] != target && PathNode(w[k], Before("", w, k)) in marked
  {
    if k > 0 {
      ClosedSearchMisses(g, z, anc, target, marked, w, k - 1);
      assert MoveAt(g, z, anc, "", w, k - 1);
      assert Finished(g, z, anc, target, marked, PathNode(w[k - 1], Before("", w, k - 1)));
    }
  }

  /** With non-empty names, the search finds a connection exactly when an active
      simple path exists, on every graph, cyclic or not. */
  lemma SearchIsSeparation(g: seq<Arc>, x: Node, y: Node, z: set<Node>, keys: set<Node>)
    requires NamesNonEmpty(g) && z <= keys
    ensures SearchFinds(g, x, y, z, AncestorsOf(g, keys), "") <==> !Separated(g, x, y, z, keys)
  {
    var anc := AncestorsOf(g, keys);
    if SearchFinds(g, x, y, z, anc, "") {
      var w :| Joins(w, x, y) && Moves(g, z, anc, "", w);
      forall i | 0 <= i < |w| - 1
        ensures Adjacent(g, w[i], w[i + 1])
      {
        assert MoveAt(g, z, anc, "", w, i);
      }
      forall i
        ensures ActiveAt(g, z, anc, w, i)
      {
        if 0 < i < |w| - 1 {
          assert MoveAt(g, z, anc, "", w, i) && Adjacent(g, w[i - 1], w[i - 1 + 1]);
          assert Arc(w[i - 1], w[i]) in g || Arc(w[i], w[i - 1]) in g;
        }
      }
      TrailRefutes(g, x, y, z, keys, w);
    }
    if p :| ActivePath(g, z, anc, p, x, y) {
      forall i: nat
        ensures MoveAt(g, z, anc, "", p, i)
      {
        if i + 1 < |p| {
          assert Adjacent(g, p[i], p[i + 1]) && ActiveAt(g, z, anc, p, i);
          assert Arc(p[i], p[i + 1]) in g || Arc(p[i + 1], p[i]) in g;
        }
      }
    }
  }

  /** On an acyclic graph with non-empty names and an all-true conditioning map,
      the answer is Pearl's. */
  lemma SearchIsPearl(g: seq<Arc>, x: Node, y: Node, z: set<Node>)
    requires NamesNonEmpty(g) && Acyclic(g)
    ensures SearchFinds(g, x, y, z, AncestorsOf(g, z), "") <==> !PearlSeparated(g, x, y, z)
  {
    SearchIsSeparation(g, x, y, z, z);
    SeparatedIsPearl(g, x, y, z);
  }

  ghost predicate AlwaysPearl(g: seq<Arc>) {
    forall x, y, z ::
      SearchFinds(g, x, y, z, AncestorsOf(g, z), "") <==> !PearlSeparated(g, x, y, z)
  }

  /** The empty name doubles as the "no previous node" marker, so an arc that
      touches a node of that name is invisible from its other end: on an acyclic
      graph the search is right on all queries exactly when no such arc exists. */
  lemma AlwaysPearlIff(g: seq<Arc>)
    requires Acyclic(g)
    ensures AlwaysPearl(g) <==> NamesNonEmpty(g)
  {
    if NamesNonEmpty(g) {
      forall x, y, z
        ensures SearchFinds(g, x, y, z, AncestorsOf(g, z), "") <==> !PearlSeparated(g, x, y, z)
      {
        SearchIsPearl(g, x, y, z);
      }
    } else {
      var e :| e in g && (e.from == "" || e.to == "");
      var x := if e.from == "" then e.to else e.from;
      var z := ParentsOf(g, e.to);
      BlankNeighborMissed(g, e, x);
      AdjacentNeverSeparated(g, x, "", z, z);
      SeparatedIsPearl(g, x, "", z);
      assert !AlwaysPearl(g);
    }
  }

  /** Conditioning on the parents of the arc's head leaves only the arc itself,
      and the search never takes it. */
  lemma BlankNeighborMissed(g: seq<Arc>, e: Arc, x: Node)
    requires Acyclic(g) && e in g
    requires (e.from == "" && x == e.to) || (e.to == "" && x == e.from)
    ensures !SearchFinds(g, x, "", ParentsOf(g, e.to), AncestorsOf(g, ParentsOf(g, e.to)), "")
  {
    var z := ParentsOf(g, e.to);
    var anc := AncestorsOf(g, z);
    NoTwoCycle(g, e.from, e.to);
    if SearchFinds(g, x, "", z, anc, "") {
      var w :| Joins(w, x, "") && Moves(g, z, anc, "", w);
      var v := UpToBlank(g, z, anc, w);
      assert MoveAt(g, z, anc, "", w, 0);
      ReversedActive(g, z, anc, v);
      ArcIsAncestor(g, e.from, e.to);
      var u := if e.to == "" then Reversed(v) else v;
      FirstStep(g, e.to, z, u);
      assert Adjacent(g, u[0], u[1]);
      if HasArc(g, e.to, u[1]) {
        AncestorTrans(g, e.to, e.from, e.to);
      }
      assert false;
    }
  }

  /** The part of a search up to its first visit of the empty name is an active trail. */
  lemma UpToBlank(g: seq<Arc>, z: set<Node>, anc: set<Node>, w: seq<Node>) returns (v: seq<Node>)
    requires |w| >= 2 && w[0] != "" && w[|w| - 1] == "" && Moves(g, z, anc, "", w)
    ensures 3 <= |v| <= |w| && v == w[..|v|] && v[|v| - 1] == "" && ActiveTrail(g, z, anc, v)
  {
    var k := 1;
    while w[k] != ""
      invariant 1 <= k < |w|
      invariant forall i :: 0 <= i < k ==> w[i] != ""
      decreases |w| - k
    {
      k := k + 1;
    }
    v := w[..k + 1];
    assert MoveAt(g, z, anc, "", w, 0);
    forall i | 0 <= i < |v| - 1
      ensures Adjacent(g, v[i], v[i + 1])
    {
      assert MoveAt(g, z, anc, "", w, i);
    }
    forall i
      ensures ActiveAt(g, z, anc, v, i)
    {
      if 0 < i < |v| - 1 {
        assert MoveAt(g, z, anc, "", w, i);
      }
    }
  }
}
