/** The search for an adjustment set and what it returns. */
module AdjustmentSet {
  import opened Digraph
  import opened DSepTheory
  import opened DSeparation

  ghost predicate Separates(g: seq<Arc>, x: Node, y: Node, z: set<Node>) {
    Separated(g, x, y, z, z)
  }

  /** No proper subset of z separates x from y. */
  ghost predicate InclusionMinimal(g: seq<Arc>, x: Node, y: Node, z: set<Node>) {
    forall u :: u < z ==> !Separates(g, x, y, u)
  }

  /** One parent per arc into x, leaving out y and the descendants of x. */
  ghost function Candidates(g: seq<Arc>, x: Node, y: Node): (r: seq<Node>)
    ensures forall n :: n in r <==> HasArc(g, n, x) && !Ancestor(g, x, n) && n != y
  {
    CandidatesFrom(g, g, x, y)
  }

  ghost function CandidatesFrom(g: seq<Arc>, arcs: seq<Arc>, x: Node, y: Node): (r: seq<Node>)
    ensures forall n :: n in r <==> HasArc(arcs, n, x) && !Ancestor(g, x, n) && n != y
  {
    if arcs == [] then []
    else
      var e := arcs[|arcs| - 1];
      var rest := CandidatesFrom(g, arcs[..|arcs| - 1], x, y);
      assert forall n :: HasArc(arcs, n, x) <==> HasArc(arcs[..|arcs| - 1], n, x) || e == Arc(n, x);
      if e.to == x && !Ancestor(g, x, e.from) && e.from != y then rest + [e.from] else rest
  }

  method ToSet(keys: seq<Node>) returns (m: map<Node, bool>)
    ensures m.Keys == SeqSet(keys) && TrueKeys(m) == m.Keys
  {
    m := map[];
    for i := 0 to |keys|
      invariant m.Keys == SeqSet(keys[..i]) && TrueKeys(m) == m.Keys
    {
      m := m[keys[i] := true];
      assert keys[..i + 1] == keys[..i] + [keys[i]];
    }
    assert keys[..|keys|] == keys;
  }

  /** Keys come in any order; each one other than `exclude` is copied. */
  method CopySetExcluding(m: map<Node, bool>, exclude: Node) returns (out: map<Node, bool>)
    ensures out == m - {exclude}
  {
    out := map[];
    var left := m.Keys;
    while left != {}
      invariant left <= m.Keys
      invariant out == map k | k in m && k !in left && k != exclude :: m[k]
      decreases left
    {
      var k :| k in left;
      left := left - {k};
      if k != exclude {
        out := out[k := m[k]];
      }
    }
  }

  method CollectCandidates(graph: seq<Arc>, x: Node, y: Node) returns (candidates: seq<Node>)
    ensures candidates == Candidates(graph, x, y)
  {
    var descX := Descendants(graph, x);
    candidates := [];
    for i := 0 to |graph|
      invariant candidates == CandidatesFrom(graph, graph[..i], x, y)
    {
      var e := graph[i];
      assert graph[..i + 1][..i] == graph[..i] && graph[..i + 1][i] == e;
      if e.to == x && e.from !in descX && e.from != y {
        candidates := candidates + [e.from];
      }
    }
    assert graph[..|graph|] == graph;
  }

  method FindMinimalAdjustmentSet(graph: seq<Arc>, x: Node, y: Node) returns (result: seq<Node>)
    ensures SeqSet(result) <= SeqSet(Candidates(graph, x, y))
    ensures NamesNonEmpty(graph) && !Separates(graph, x, y, SeqSet(Candidates(graph, x, y))) ==>
              result == Candidates(graph, x, y)
    ensures NamesNonEmpty(graph) && Acyclic(graph) && Separates(graph, x, y, SeqSet(Candidates(graph, x, y))) ==>
              Separates(graph, x, y, SeqSet(result)) && InclusionMinimal(graph, x, y, SeqSet(result))
  {
    var candidates := CollectCandidates(graph, x, y);
    var candidateMap := ToSet(candidates);
    var sufficient := IsDSeparated(graph, x, y, candidateMap);
    if !sufficient {
      return candidates;
    }
    result := ShrinkGreedily(graph, x, y, candidates, candidateMap);
  }

  /** The minimisation loop of FindMinimalAdjustmentSet: drop each candidate whose
      removal from the current map still separates. */
  method ShrinkGreedily(graph: seq<Arc>, x: Node, y: Node, candidates: seq<Node>, sufficient: map<Node, bool>)
    returns (minimal: seq<Node>)
    requires sufficient.Keys == SeqSet(candidates) && TrueKeys(sufficient) == sufficient.Keys
    requires forall n :: n in candidates ==> HasArc(graph, n, x)
    ensures SeqSet(minimal) <= SeqSet(candidates)
    ensures NamesNonEmpty(graph) && Acyclic(graph) && Separates(graph, x, y, sufficient.Keys) ==>
              Separates(graph, x, y, SeqSet(minimal)) && InclusionMinimal(graph, x, y, SeqSet(minimal))
  {
    ghost var decided := NamesNonEmpty(graph) && Acyclic(graph) && Separates(graph, x, y, sufficient.Keys);
    var candidateMap := sufficient;
    minimal := [];
    for i := 0 to |candidates|
      invariant TrueKeys(candidateMap) == candidateMap.Keys
      invariant SeqSet(minimal) <= SeqSet(candidates)
      invariant decided ==> Greedy(graph, x, y, candidateMap.Keys, minimal, candidates[i..])
    {
      var c := candidates[i];
      assert candidates[i..] == [c] + candidates[i + 1..];
      var without := CopySetExcluding(candidateMap, c);
      assert TrueKeys(without) == without.Keys == candidateMap.Keys - {c};
      var redundant := IsDSeparated(graph, x, y, without);
      if redundant {
        if decided {
          GreedyDrop(graph, x, y, candidateMap.Keys, minimal, c, candidates[i + 1..]);
        }
        candidateMap := candidateMap - {c};
      } else {
        if decided {
          GreedyKeep(graph, x, y, candidateMap.Keys, minimal, c, candidates[i + 1..]);
        }
        minimal := minimal + [c];
      }
    }
    if decided {
      assert candidates[|candidates|..] == [];
      GreedyDone(graph, x, y, candidateMap.Keys, minimal);
    }
  }

  /** The state of the greedy pass: `keys` separates, holds everything kept so far
      and nothing that was neither kept nor still to come, and none of the kept
      nodes can be spared. */
  ghost predicate Greedy(g: seq<Arc>, x: Node, y: Node, keys: set<Node>, kept: seq<Node>, rest: seq<Node>) {
    && (forall n :: n in keys ==> HasArc(g, n, x))
    && Separates(g, x, y, keys)
    && SeqSet(kept) <= keys
    && keys <= SeqSet(kept) + SeqSet(rest)
    && forall c :: c in kept ==> !Separates(g, x, y, keys - {c})
  }

  lemma GreedyDrop(g: seq<Arc>, x: Node, y: Node, keys: set<Node>, kept: seq<Node>, c: Node, rest: seq<Node>)
    requires Acyclic(g) && Greedy(g, x, y, keys, kept, [c] + rest) && Separates(g, x, y, keys - {c})
    ensures Greedy(g, x, y, keys - {c}, kept, rest)
  {
    forall d | d in kept
      ensures !Separates(g, x, y, keys - {c} - {d})
    {
      if Separates(g, x, y, keys - {c} - {d}) {
        SeparationUpwardClosed(g, x, y, keys - {c} - {d}, keys - {d});
      }
    }
  }

  lemma GreedyKeep(g: seq<Arc>, x: Node, y: Node, keys: set<Node>, kept: seq<Node>, c: Node, rest: seq<Node>)
    requires Greedy(g, x, y, keys, kept, [c] + rest) && !Separates(g, x, y, keys - {c})
    ensures Greedy(g, x, y, keys, kept + [c], rest)
  {
    assert c !in keys ==> keys - {c} == keys;
  }

  lemma GreedyDone(g: seq<Arc>, x: Node, y: Node, keys: set<Node>, kept: seq<Node>)
    requires Acyclic(g) && Greedy(g, x, y, keys, kept, [])
    ensures Separates(g, x, y, SeqSet(kept)) && InclusionMinimal(g, x, y, SeqSet(kept))
  {
    assert SeqSet(kept) == keys;
    forall u | u < keys
      ensures !Separates(g, x, y, u)
    {
      var c :| c in keys && c !in u;
      if Separates(g, x, y, u) {
        SeparationUpwardClosed(g, x, y, u, keys - {c});
      }
    }
  }

  // ---------------------------------------------------------------------
  // Separation by sets of parents

  /** Local Markov: on an acyclic graph the parents of x other than y separate x
      from y exactly when y is neither a descendant nor a parent of x. */
  lemma LocalMarkov(g: seq<Arc>, x: Node, y: Node)
    requires Acyclic(g) && x != y
    ensures Separates(g, x, y, ParentsOf(g, x) - {y}) <==> !Ancestor(g, x, y) && !HasArc(g, y, x)
  {
    var z := ParentsOf(g, x) - {y};
    var anc := AncestorsOf(g, z);
    if HasArc(g, y, x) {
      AdjacentNeverSeparated(g, x, y, z, z);
    } else if Ancestor(g, x, y) {
      var w :| WalkFromTo(g, w, x, y) && |w| >= 2;
      DirectedTrailActive(g, x, z, w);
      TrailRefutes(g, x, y, z, z, w);
    } else if p :| ActivePath(g, z, anc, p, x, y) {
      assert Adjacent(g, p[0], p[0 + 1]);
      FirstStep(g, x, z, p);
      assert false;
    }
  }

  /** Walking along arcs away from x never meets a parent of x. */
  lemma DirectedTrailActive(g: seq<Arc>, x: Node, z: set<Node>, w: seq<Node>)
    requires Acyclic(g) && z <= ParentsOf(g, x) && IsWalk(g, w) && w[0] == x
    ensures ActiveTrail(g, z, AncestorsOf(g, z), w)
  {
    forall i
      ensures ActiveAt(g, z, AncestorsOf(g, z), w, i)
    {
      if 0 < i < |w| - 1 {
        NoTwoCycle(g, w[i], w[i + 1]);
        assert WalkFromTo(g, w[..i + 1], x, w[i]);
        assert Ancestor(g, x, w[i]);
        if w[i] in z {
          ArcIsAncestor(g, w[i], x);
          AncestorTrans(g, x, w[i], x);
        }
      }
    }
  }

  /** The candidate list is all parents of x but y when the graph is acyclic. */
  lemma CandidatesAreParents(g: seq<Arc>, x: Node, y: Node)
    requires Acyclic(g)
    ensures SeqSet(Candidates(g, x, y)) == ParentsOf(g, x) - {y}
  {
    forall n | HasArc(g, n, x)
      ensures !Ancestor(g, x, n)
    {
      ArcIsAncestor(g, n, x);
      if Ancestor(g, x, n) {
        AncestorTrans(g, x, n, x);
      }
    }
    forall n
      ensures n in ParentsOf(g, x) <==> HasArc(g, n, x)
    {
      if HasArc(g, n, x) {
        assert Arc(n, x) in g;
      }
    }
  }

  /** Conditioning on one more parent of x opens nothing that was closed: a
      collider opened by c lies above c, and going back down from it through c
      to x was already open. */
  lemma AddParentKeepsSeparation(g: seq<Arc>, x: Node, y: Node, z: set<Node>, c: Node)
    requires Acyclic(g) && z <= ParentsOf(g, x) && HasArc(g, c, x)
    requires Separates(g, x, y, z)
    ensures Separates(g, x, y, z + {c})
  {
    var z' := z + {c};
    var anc, anc' := AncestorsOf(g, z), AncestorsOf(g, z');
    if p :| ActivePath(g, z', anc', p, x, y) {
      var i := LastInactive(g, z, anc, p, |p|);
      if i == 0 {
        TrailRefutes(g, x, y, z, z, p);
      } else {
        var b := p[i];
        assert ActiveAt(g, z', anc', p, i);
        AncestorsOfIff(g, z, b);
        AncestorsOfIff(g, z', b);
        ReachesIff(g, b, c);
        assert Reaches(g, b, c);
        ArcIsAncestor(g, c, x);
        ReachesTrans(g, b, c, x);
        var d :| WalkFromTo(g, d, b, x) && |d| >= 2;
        DetourActive(g, z, d, p, i);
        TrailRefutes(g, x, y, z, z, Reversed(d) + p[i + 1..]);
      }
      assert false;
    }
  }

  /** The last inner position below `n` where p is not active, or 0. */
  lemma LastInactive(g: seq<Arc>, z: set<Node>, anc: set<Node>, p: seq<Node>, n: nat) returns (i: nat)
    requires forall k :: k >= n ==> ActiveAt(g, z, anc, p, k)
    requires Trail(g, p)
    ensures i > 0 ==> i < |p| - 1 && !ActiveAt(g, z, anc, p, i)
    ensures forall k :: k > i ==> ActiveAt(g, z, anc, p, k)
    ensures i == 0 ==> ActiveTrail(g, z, anc, p)
  {
    if n == 0 {
      i := 0;
    } else if ActiveAt(g, z, anc, p, n - 1) {
      i := LastInactive(g, z, anc, p, n - 1);
    } else {
      i := n - 1;
    }
  }

  /** Replacing the start of a trail, up to an unopened collider, by the way back
      along a directed walk out of that collider. */
  lemma DetourActive(g: seq<Arc>, z: set<Node>, d: seq<Node>, p: seq<Node>, i: nat)
    requires Acyclic(g) && IsWalk(g, d) && |d| >= 2 && Trail(g, p) && 0 < i < |p| - 1
    requires d[0] == p[i] && p[i] !in z && p[i] !in AncestorsOf(g, z)
    requires forall k :: k > i ==> ActiveAt(g, z, AncestorsOf(g, z), p, k)
    ensures Joins(Reversed(d) + p[i + 1..], d[|d| - 1], p[|p| - 1])
    ensures ActiveTrail(g, z, AncestorsOf(g, z), Reversed(d) + p[i + 1..])
  {
    var anc := AncestorsOf(g, z);
    var n := |d|;
    var t := Reversed(d) + p[i + 1..];
    assert forall k :: 0 <= k < n ==> t[k] == d[n - 1 - k];
    assert forall k :: n - 1 <= k < |t| ==> t[k] == p[k - (n - 1) + i];
    forall k | 0 <= k < |t| - 1
      ensures Adjacent(g, t[k], t[k + 1])
    {
      if k < n - 1 {
        assert HasArc(g, d[n - 2 - k], d[n - 2 - k + 1]);
      } else {
        assert Adjacent(g, p[k - (n - 1) + i], p[k - (n - 1) + i + 1]);
      }
    }
    forall k
      ensures ActiveAt(g, z, anc, t, k)
    {
      if 0 < k < n {
        var j := n - 1 - k;
        assert HasArc(g, d[j], d[j + 1]);
        NoTwoCycle(g, d[j], d[j + 1]);
        if j > 0 && d[j] in z {
          assert WalkFromTo(g, d[..j + 1], d[0], d[j]);
          AncestorsOfIff(g, z, d[0]);
          assert false;
        }
      } else if n <= k < |t| - 1 {
        assert ActiveAt(g, z, anc, p, k - (n - 1) + i);
      }
    }
  }

  /** Among sets of parents of x, every superset of a separating set separates. */
  lemma {:induction false} SeparationUpwardClosed(g: seq<Arc>, x: Node, y: Node, z: set<Node>, u: set<Node>)
    requires Acyclic(g) && z <= u && forall n :: n in u ==> HasArc(g, n, x)
    requires Separates(g, x, y, z)
    ensures Separates(g, x, y, u)
    decreases u - z
  {
    if z != u {
      var c :| c in u && c !in z;
      forall n | n in z
        ensures n in ParentsOf(g, x)
      {
        assert Arc(n, x) in g;
      }
      AddParentKeepsSeparation(g, x, y, z, c);
      SeparationUpwardClosed(g, x, y, z + {c}, u);
    } else {
      assert z == u;
    }
  }

  // ---------------------------------------------------------------------
  // The back-door criterion (Pearl, "Causality", Definition 3.3.1)

  ghost predicate BackDoor(g: seq<Arc>, x: Node, y: Node, z: set<Node>) {
    && (forall n :: n in z ==> !Ancestor(g, x, n))
    && (forall p {:trigger PearlPath(g, p, x, y)} ::
          PearlPath(g, p, x, y) && |p| >= 2 && HasArc(g, p[1], x) ==> PearlBlocked(g, z, p))
  }

  /** All parents of x except y meet the criterion, as does every set of
      non-descendants that separates, exactly when y is not a parent of x. */
  lemma BackDoorIff(g: seq<Arc>, x: Node, y: Node, z: set<Node>)
    requires Acyclic(g) && x != y
    requires z <= ParentsOf(g, x) - {y}
    requires z == ParentsOf(g, x) - {y} || Separates(g, x, y, z)
    ensures BackDoor(g, x, y, z) <==> !HasArc(g, y, x)
  {
    forall n | n in z
      ensures !Ancestor(g, x, n)
    {
      ArcIsAncestor(g, n, x);
      if Ancestor(g, x, n) {
        AncestorTrans(g, x, n, x);
      }
    }
    if HasArc(g, y, x) {
      assert PearlPath(g, [x, y], x, y);
      assert !PearlBlocked(g, z, [x, y]);
    } else {
      SeparatedIsPearl(g, x, y, z);
      forall p | PearlPath(g, p, x, y) && |p| >= 2 && HasArc(g, p[1], x)
        ensures PearlBlocked(g, z, p)
      {
        if z == ParentsOf(g, x) - {y} {
          assert Arc(p[1], x) in g;
          assert |p| >= 3;
          assert Adjacent(g, p[1], p[1 + 1]);
          assert PearlBlocks(g, z, p[1 - 1], p[1], p[1 + 1]);
        }
      }
    }
  }

  /** What FindMinimalAdjustmentSet returns on an acyclic graph, in one place. */
  method AdjustForEffect(graph: seq<Arc>, x: Node, y: Node) returns (result: seq<Node>)
    requires NamesNonEmpty(graph) && Acyclic(graph) && x != y
    ensures Ancestor(graph, x, y) || HasArc(graph, y, x) ==> SeqSet(result) == ParentsOf(graph, x) - {y}
    ensures !Ancestor(graph, x, y) && !HasArc(graph, y, x) ==>
              PearlSeparated(graph, x, y, SeqSet(result)) && InclusionMinimal(graph, x, y, SeqSet(result))
    ensures y !in result && forall n :: n in result ==> HasArc(graph, n, x) && !Ancestor(graph, x, n)
    ensures BackDoor(graph, x, y, SeqSet(result)) <==> !HasArc(graph, y, x)
  {
    result := FindMinimalAdjustmentSet(graph, x, y);
    CandidatesAreParents(graph, x, y);
    LocalMarkov(graph, x, y);
    SeparatedIsPearl(graph, x, y, SeqSet(result));
    BackDoorIff(graph, x, y, SeqSet(result));
    forall n | n in result
      ensures HasArc(graph, n, x) && !Ancestor(graph, x, n)
    {
      assert n in SeqSet(result) && n in SeqSet(Candidates(graph, x, y));
    }
  }
}
