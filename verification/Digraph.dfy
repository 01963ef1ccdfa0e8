/** Finite directed graphs as arc lists, and their walks. */
module Digraph {

  type Node = string

  datatype Arc = Arc(from: Node, to: Node)

  ghost predicate HasArc(g: seq<Arc>, a: Node, b: Node) {
    Arc(a, b) in g
  }

  /** The nodes that some arc touches. */
  ghost function Endpoints(g: seq<Arc>): set<Node> {
    (set e | e in g :: e.from) + (set e | e in g :: e.to)
  }

  ghost predicate IsWalk(g: seq<Arc>, w: seq<Node>) {
    |w| >= 1 && forall i :: 0 <= i < |w| - 1 ==> HasArc(g, w[i], w[i + 1])
  }

  ghost predicate WalkFromTo(g: seq<Arc>, w: seq<Node>, a: Node, b: Node) {
    IsWalk(g, w) && w[0] == a && w[|w| - 1] == b
  }

  ghost predicate Distinct<T>(s: seq<T>) {
    forall i, j :: 0 <= i < j < |s| ==> s[i] != s[j]
  }

  ghost function Reversed<T>(s: seq<T>): (r: seq<T>)
    ensures |r| == |s| && forall k :: 0 <= k < |s| ==> r[k] == s[|s| - 1 - k]
  {
    seq(|s|, k requires 0 <= k < |s| => s[|s| - 1 - k])
  }

  /** b can be reached from a along zero or more arcs. */
  ghost predicate Reaches(g: seq<Arc>, a: Node, b: Node) {
    exists w :: WalkFromTo(g, w, a, b)
  }

  /** b can be reached from a along at least one arc. */
  ghost predicate Ancestor(g: seq<Arc>, a: Node, b: Node) {
    exists w {:trigger WalkFromTo(g, w, a, b)} :: WalkFromTo(g, w, a, b) && |w| >= 2
  }

  ghost predicate Acyclic(g: seq<Arc>) {
    forall n :: !Ancestor(g, n, n)
  }

  lemma ArcIsAncestor(g: seq<Arc>, a: Node, b: Node)
    requires HasArc(g, a, b)
    ensures Ancestor(g, a, b)
  {
    assert WalkFromTo(g, [a, b], a, b);
  }

  lemma ReachesSelf(g: seq<Arc>, a: Node)
    ensures Reaches(g, a, a)
  {
    assert WalkFromTo(g, [a], a, a);
  }

  lemma WalkConcat(g: seq<Arc>, v: seq<Node>, w: seq<Node>, a: Node, b: Node, c: Node)
    requires WalkFromTo(g, v, a, b) && WalkFromTo(g, w, b, c)
    ensures WalkFromTo(g, v + w[1..], a, c)
  {
    var r := v + w[1..];
    forall i | 0 <= i < |r| - 1
      ensures HasArc(g, r[i], r[i + 1])
    {
      if i >= |v| - 1 {
        assert r[i] == w[i - (|v| - 1)] && r[i + 1] == w[i + 1 - (|v| - 1)];
      }
    }
  }

  lemma ReachesTrans(g: seq<Arc>, a: Node, b: Node, c: Node)
    requires Reaches(g, a, b) && Reaches(g, b, c)
    ensures Reaches(g, a, c)
    ensures Ancestor(g, a, b) || Ancestor(g, b, c) ==> Ancestor(g, a, c)
  {
    var v :| WalkFromTo(g, v, a, b) && (Ancestor(g, a, b) ==> |v| >= 2);
    var w :| WalkFromTo(g, w, b, c) && (Ancestor(g, b, c) ==> |w| >= 2);
    WalkConcat(g, v, w, a, b, c);
  }

  lemma AncestorTrans(g: seq<Arc>, a: Node, b: Node, c: Node)
    requires Ancestor(g, a, b) && Ancestor(g, b, c)
    ensures Ancestor(g, a, c)
  {
    ReachesTrans(g, a, b, c);
  }

  /** Reaching is being equal or being an ancestor. */
  lemma ReachesIff(g: seq<Arc>, a: Node, b: Node)
    ensures Reaches(g, a, b) <==> a == b || Ancestor(g, a, b)
  {
    if Reaches(g, a, b) {
      var w :| WalkFromTo(g, w, a, b);
      assert |w| >= 2 || a == b;
    }
    if a == b {
      ReachesSelf(g, a);
    }
  }

  lemma AncestorFirstArc(g: seq<Arc>, a: Node, b: Node) returns (p: Node)
    requires Ancestor(g, a, b)
    ensures HasArc(g, a, p) && Reaches(g, p, b)
  {
    var w :| WalkFromTo(g, w, a, b) && |w| >= 2;
    p := w[1];
    assert WalkFromTo(g, w[1..], p, b);
  }

  /** A set that holds the parents of every node of `seeds` and the parents of
      its own members holds every ancestor of a seed. */
  lemma {:induction false} ClosedUnderParents(g: seq<Arc>, seeds: set<Node>, s: set<Node>, w: seq<Node>)
    requires IsWalk(g, w) && |w| >= 2 && w[|w| - 1] in seeds
    requires forall a, b :: HasArc(g, a, b) && (b in seeds || b in s) ==> a in s
    ensures w[0] in s
    decreases |w|
  {
    assert HasArc(g, w[0], w[1]);
    if |w| > 2 {
      ClosedUnderParents(g, seeds, s, w[1..]);
    }
  }

  /** The mirror image, along the arcs. */
  lemma {:induction false} ClosedUnderChildren(g: seq<Arc>, seeds: set<Node>, s: set<Node>, w: seq<Node>)
    requires IsWalk(g, w) && |w| >= 2 && w[0] in seeds
    requires forall a, b :: HasArc(g, a, b) && (a in seeds || a in s) ==> b in s
    ensures w[|w| - 1] in s
    decreases |w|
  {
    assert HasArc(g, w[|w| - 2], w[|w| - 1]);
    if |w| > 2 {
      ClosedUnderChildren(g, seeds, s, w[..|w| - 1]);
    }
  }

  /** Cutting out the loop between two visits of one node. */
  lemma CutLoop(g: seq<Arc>, w: seq<Node>, i: nat, j: nat)
    requires IsWalk(g, w) && i < j < |w| && w[i] == w[j]
    ensures IsWalk(g, w[..i] + w[j..])
    ensures (w[..i] + w[j..])[0] == w[0]
    ensures (w[..i] + w[j..])[|w| - (j - i) - 1] == w[|w| - 1]
  {
    var r := w[..i] + w[j..];
    forall k | 0 <= k < |r| - 1
      ensures HasArc(g, r[k], r[k + 1])
    {
      if k == i - 1 {
        assert r[k] == w[k] && r[k + 1] == w[j] == w[i];
        assert HasArc(g, w[k], w[k + 1]);
      } else if k >= i {
        assert r[k] == w[k + (j - i)] && r[k + 1] == w[k + 1 + (j - i)];
      }
    }
  }

  /** Every walk has a duplicate-free walk between the same ends that is no longer. */
  lemma {:induction false} SimpleWalk(g: seq<Arc>, w: seq<Node>) returns (p: seq<Node>)
    requires IsWalk(g, w)
    ensures WalkFromTo(g, p, w[0], w[|w| - 1]) && Distinct(p) && |p| <= |w|
    decreases |w|
  {
    if i, j :| 0 <= i < j < |w| && w[i] == w[j] {
      CutLoop(g, w, i, j);
      p := SimpleWalk(g, w[..i] + w[j..]);
    } else {
      p := w;
    }
  }

  function SeqSet<T>(s: seq<T>): set<T> {
    set x | x in s
  }

  /** A duplicate-free sequence has as many elements as its set. */
  lemma {:induction false} DistinctCard<T>(s: seq<T>)
    requires Distinct(s)
    ensures |SeqSet(s)| == |s|
  {
    if s != [] {
      var t := s[..|s| - 1];
      DistinctCard(t);
      assert SeqSet(s) == SeqSet(t) + {s[|s| - 1]};
    }
  }

  lemma {:induction false} SubsetCard<T>(a: set<T>, b: set<T>)
    requires a <= b
    ensures |a| <= |b|
    decreases a
  {
    if x :| x in a {
      SubsetCard(a - {x}, b - {x});
    }
  }

  /** Pigeonhole: a sequence longer than the set it draws from repeats an element. */
  lemma Pigeonhole<T>(s: seq<T>, universe: set<T>) returns (i: nat, j: nat)
    requires forall k :: 0 <= k < |s| ==> s[k] in universe
    requires |s| > |universe|
    ensures i < j < |s| && s[i] == s[j]
  {
    if Distinct(s) {
      DistinctCard(s);
      SubsetCard(SeqSet(s), universe);
      assert false;
    }
    i, j :| 0 <= i < j < |s| && s[i] == s[j];
  }

  ghost predicate HasParentIn(g: seq<Arc>, s: set<Node>, b: Node) {
    exists a :: a in s && HasArc(g, a, b)
  }

  /** A non-empty finite set whose every member has a parent inside it contains
      a node that lies on a cycle and reaches the given member. */
  lemma NoSourceMeansCycle(g: seq<Arc>, s: set<Node>, n: Node) returns (c: Node)
    requires n in s
    requires forall b :: b in s ==> HasParentIn(g, s, b)
    ensures c in s && Ancestor(g, c, c) && Reaches(g, c, n)
  {
    var w := BackwardWalk(g, s, n, |s| + 1);
    var i, j := Pigeonhole(w, s);
    c := w[i];
    WalkPart(g, w, i, j);
    WalkPart(g, w, i, |w| - 1);
  }

  lemma WalkPart(g: seq<Arc>, w: seq<Node>, i: nat, j: nat)
    requires IsWalk(g, w) && i <= j < |w|
    ensures WalkFromTo(g, w[i..j + 1], w[i], w[j]) && Reaches(g, w[i], w[j])
    ensures i < j ==> Ancestor(g, w[i], w[j])
  {
    var v := w[i..j + 1];
    forall k | 0 <= k < |v| - 1
      ensures HasArc(g, v[k], v[k + 1])
    {
      assert HasArc(g, w[i + k], w[i + k + 1]);
    }
    assert WalkFromTo(g, v, w[i], w[j]);
  }

  lemma {:induction false} BackwardWalk(g: seq<Arc>, s: set<Node>, n: Node, len: nat) returns (w: seq<Node>)
    requires n in s && len >= 1
    requires forall b :: b in s ==> HasParentIn(g, s, b)
    ensures |w| == len && WalkFromTo(g, w, w[0], n)
    ensures forall k :: 0 <= k < |w| ==> w[k] in s
    decreases len
  {
    if len == 1 {
      w := [n];
    } else {
      var v := BackwardWalk(g, s, n, len - 1);
      var a :| a in s && HasArc(g, a, v[0]);
      w := [a] + v;
    }
  }

  /** In an acyclic graph every walk is duplicate-free. */
  lemma AcyclicWalkDistinct(g: seq<Arc>, w: seq<Node>)
    requires Acyclic(g) && IsWalk(g, w)
    ensures Distinct(w)
  {
    if i, j :| 0 <= i < j < |w| && w[i] == w[j] {
      assert WalkFromTo(g, w[i..j + 1], w[i], w[i]);
      assert Ancestor(g, w[i], w[i]);
    }
  }
}
