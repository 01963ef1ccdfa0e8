/** d-separation by active walks and by Pearl's paths. */
module DSepTheory {
  import opened Digraph

  ghost predicate Adjacent(g: seq<Arc>, a: Node, b: Node) {
    HasArc(g, a, b) || HasArc(g, b, a)
  }

  /** The nodes with a non-empty directed walk into one of `keys`. */
  ghost function AncestorsOf(g: seq<Arc>, keys: set<Node>): set<Node> {
    set n | n in Endpoints(g) && exists d :: d in keys && Ancestor(g, n, d)
  }

  lemma AncestorsOfIff(g: seq<Arc>, keys: set<Node>, n: Node)
    ensures n in AncestorsOf(g, keys) <==> exists d :: d in keys && Ancestor(g, n, d)
  {
    if d :| d in keys && Ancestor(g, n, d) {
      var p := AncestorFirstArc(g, n, d);
      assert Arc(n, p) in g;
    }
  }

  /** The triplet rule: a collider must be conditioned on or be an ancestor of a
      conditioned node, any other node must not be conditioned on. */
  ghost predicate ActiveTriplet(g: seq<Arc>, a: Node, b: Node, c: Node, z: set<Node>, anc: set<Node>) {
    if HasArc(g, a, b) && HasArc(g, c, b) then b in z || b in anc else b !in z
  }

  ghost predicate ActiveAt(g: seq<Arc>, z: set<Node>, anc: set<Node>, w: seq<Node>, i: int) {
    0 < i < |w| - 1 ==> ActiveTriplet(g, w[i - 1], w[i], w[i + 1], z, anc)
  }

  ghost predicate Trail(g: seq<Arc>, w: seq<Node>) {
    |w| >= 1 && forall i :: 0 <= i < |w| - 1 ==> Adjacent(g, w[i], w[i + 1])
  }

  /** An undirected walk, possibly revisiting nodes, whose every inner triple is active. */
  ghost predicate ActiveTrail(g: seq<Arc>, z: set<Node>, anc: set<Node>, w: seq<Node>) {
    Trail(g, w) && forall i :: ActiveAt(g, z, anc, w, i)
  }

  ghost predicate Joins(w: seq<Node>, x: Node, y: Node) {
    |w| >= 1 && w[0] == x && w[|w| - 1] == y
  }

  ghost predicate ActivePath(g: seq<Arc>, z: set<Node>, anc: set<Node>, p: seq<Node>, x: Node, y: Node) {
    Joins(p, x, y) && Distinct(p) && ActiveTrail(g, z, anc, p)
  }

  /** No simple undirected path from x to y is active: non-colliders outside z,
      colliders in z or above one of `keys`. */
  ghost predicate Separated(g: seq<Arc>, x: Node, y: Node, z: set<Node>, keys: set<Node>) {
    !exists p :: ActivePath(g, z, AncestorsOf(g, keys), p, x, y)
  }

  /** `anc` contains everything directly above a conditioned or marked node. */
  ghost predicate UpwardClosed(g: seq<Arc>, z: set<Node>, anc: set<Node>) {
    forall a, b :: HasArc(g, a, b) && (b in z || b in anc) ==> a in anc
  }

  lemma AncestorsOfUpwardClosed(g: seq<Arc>, z: set<Node>, keys: set<Node>)
    requires z <= keys
    ensures UpwardClosed(g, z, AncestorsOf(g, keys))
  {
    var anc := AncestorsOf(g, keys);
    forall a, b | HasArc(g, a, b) && (b in z || b in anc)
      ensures a in anc
    {
      ArcIsAncestor(g, a, b);
      AncestorsOfIff(g, keys, a);
      if b in anc {
        var d :| d in keys && Ancestor(g, b, d);
        AncestorTrans(g, a, b, d);
      }
    }
  }

  /** A trail that leaves w[i] along an arc and does not arrive at w[j] along one
      meets a collider in between; that collider is open, so w[i] lies above a
      conditioned node. */
  lemma {:induction false} ForwardClimb(g: seq<Arc>, z: set<Node>, anc: set<Node>, w: seq<Node>, i: nat, j: nat)
    requires UpwardClosed(g, z, anc) && ActiveTrail(g, z, anc, w)
    requires i < j < |w| && HasArc(g, w[i], w[i + 1]) && !HasArc(g, w[j - 1], w[j])
    ensures w[i] in anc
    decreases j - i
  {
    assert i + 1 < j;
    assert ActiveAt(g, z, anc, w, i + 1);
    assert Adjacent(g, w[i + 1], w[i + 2]);
    if !HasArc(g, w[i + 2], w[i + 1]) {
      ForwardClimb(g, z, anc, w, i + 1, j);
    }
  }

  /** Removing the loop between two visits of one node keeps a trail active. */
  lemma ShortcutActive(g: seq<Arc>, z: set<Node>, anc: set<Node>, w: seq<Node>, i: nat, j: nat)
    requires UpwardClosed(g, z, anc) && ActiveTrail(g, z, anc, w)
    requires i < j < |w| && w[i] == w[j]
    ensures ActiveTrail(g, z, anc, w[..i] + w[j..])
    ensures Joins(w[..i] + w[j..], w[0], w[|w| - 1])
  {
    var r := w[..i] + w[j..];
    var d := j - i;
    assert forall k :: 0 <= k <= i ==> r[k] == w[k];
    assert forall k :: i <= k < |r| ==> r[k] == w[k + d];
    forall k | 0 <= k < |r| - 1
      ensures Adjacent(g, r[k], r[k + 1])
    {
      assert k < i ==> Adjacent(g, w[k], w[k + 1]);
      assert k >= i ==> Adjacent(g, w[k + d], w[k + d + 1]);
    }
    forall k
      ensures ActiveAt(g, z, anc, r, k)
    {
      if 0 < k < |r| - 1 {
        if k < i {
          assert ActiveAt(g, z, anc, w, k);
        } else if k > i {
          assert ActiveAt(g, z, anc, w, k + d);
        } else {
          ShortcutJunction(g, z, anc, w, i, j);
        }
      }
    }
  }

  /** The new triple at the node where a loop was cut out. */
  lemma ShortcutJunction(g: seq<Arc>, z: set<Node>, anc: set<Node>, w: seq<Node>, i: nat, j: nat)
    requires UpwardClosed(g, z, anc) && ActiveTrail(g, z, anc, w)
    requires 0 < i < j < |w| - 1 && w[i] == w[j]
    ensures ActiveTriplet(g, w[i - 1], w[i], w[j + 1], z, anc)
  {
    assert ActiveAt(g, z, anc, w, i) && ActiveAt(g, z, anc, w, j);
    if HasArc(g, w[i - 1], w[i]) && HasArc(g, w[j + 1], w[i]) && w[i] !in z {
      assert Adjacent(g, w[i], w[i + 1]);
      if !HasArc(g, w[i + 1], w[i]) && !HasArc(g, w[j - 1], w[j]) {
        ForwardClimb(g, z, anc, w, i, j);
      }
    }
  }

  /** Every active trail contains an active simple path between its ends. */
  lemma {:induction false} TrailToPath(g: seq<Arc>, z: set<Node>, anc: set<Node>, w: seq<Node>) returns (p: seq<Node>)
    requires UpwardClosed(g, z, anc) && ActiveTrail(g, z, anc, w)
    ensures ActivePath(g, z, anc, p, w[0], w[|w| - 1])
    decreases |w|
  {
    if i, j :| 0 <= i < j < |w| && w[i] == w[j] {
      ShortcutActive(g, z, anc, w, i, j);
      p := TrailToPath(g, z, anc, w[..i] + w[j..]);
    } else {
      p := w;
    }
  }

  /** An active trail refutes separation. */
  lemma TrailRefutes(g: seq<Arc>, x: Node, y: Node, z: set<Node>, keys: set<Node>, w: seq<Node>)
    requires z <= keys && Joins(w, x, y) && ActiveTrail(g, z, AncestorsOf(g, keys), w)
    ensures !Separated(g, x, y, z, keys)
  {
    AncestorsOfUpwardClosed(g, z, keys);
    var p := TrailToPath(g, z, AncestorsOf(g, keys), w);
  }

  lemma ReversedActive(g: seq<Arc>, z: set<Node>, anc: set<Node>, w: seq<Node>)
    requires ActiveTrail(g, z, anc, w)
    ensures ActiveTrail(g, z, anc, Reversed(w))
  {
    var r := Reversed(w);
    forall i | 0 <= i < |r| - 1
      ensures Adjacent(g, r[i], r[i + 1])
    {
      assert Adjacent(g, w[|w| - 2 - i], w[|w| - 2 - i + 1]);
    }
    forall i
      ensures ActiveAt(g, z, anc, r, i)
    {
      assert ActiveAt(g, z, anc, w, |w| - 1 - i);
    }
  }

  /** Separation does not depend on which end the search starts from. */
  lemma SeparatedSymmetric(g: seq<Arc>, x: Node, y: Node, z: set<Node>, keys: set<Node>)
    ensures Separated(g, x, y, z, keys) <==> Separated(g, y, x, z, keys)
  {
    var anc := AncestorsOf(g, keys);
    if p :| ActivePath(g, z, anc, p, x, y) {
      ReversedActive(g, z, anc, p);
      assert ActivePath(g, z, anc, Reversed(p), y, x);
    }
    if p :| ActivePath(g, z, anc, p, y, x) {
      ReversedActive(g, z, anc, p);
      assert ActivePath(g, z, anc, Reversed(p), x, y);
    }
  }

  /** Nothing separates two adjacent nodes. */
  lemma AdjacentNeverSeparated(g: seq<Arc>, x: Node, y: Node, z: set<Node>, keys: set<Node>)
    requires Adjacent(g, x, y) || x == y
    ensures !Separated(g, x, y, z, keys)
  {
    var p := if x == y then [x] else [x, y];
    assert ActivePath(g, z, AncestorsOf(g, keys), p, x, y);
  }

  // ---------------------------------------------------------------------
  // Pearl, "Causality", Definition 1.2.3

  /** The middle node m of a path stretch a - m - c blocks it: a chain or a fork
      through a member of z, or a collider outside z with no descendant in z. */
  ghost predicate PearlBlocks(g: seq<Arc>, z: set<Node>, a: Node, m: Node, c: Node) {
    || (HasArc(g, a, m) && HasArc(g, m, c) && m in z)
    || (HasArc(g, c, m) && HasArc(g, m, a) && m in z)
    || (HasArc(g, m, a) && HasArc(g, m, c) && m in z)
    || (HasArc(g, a, m) && HasArc(g, c, m) && m !in z && forall d :: d in z ==> !Ancestor(g, m, d))
  }

  ghost predicate PearlPath(g: seq<Arc>, p: seq<Node>, x: Node, y: Node) {
    Joins(p, x, y) && Trail(g, p) && Distinct(p)
  }

  ghost predicate PearlBlocked(g: seq<Arc>, z: set<Node>, p: seq<Node>) {
    exists i :: 0 < i < |p| - 1 && PearlBlocks(g, z, p[i - 1], p[i], p[i + 1])
  }

  /** z d-separates x from y. */
  ghost predicate PearlSeparated(g: seq<Arc>, x: Node, y: Node, z: set<Node>) {
    forall p :: PearlPath(g, p, x, y) ==> PearlBlocked(g, z, p)
  }

  lemma NoTwoCycle(g: seq<Arc>, a: Node, b: Node)
    requires Acyclic(g) && HasArc(g, a, b)
    ensures !HasArc(g, b, a) && a != b
  {
    ArcIsAncestor(g, a, b);
    if HasArc(g, b, a) {
      ArcIsAncestor(g, b, a);
      AncestorTrans(g, a, b, a);
      assert false;
    }
  }

  lemma BlocksIffInactive(g: seq<Arc>, z: set<Node>, a: Node, m: Node, c: Node)
    requires Acyclic(g) && Adjacent(g, a, m) && Adjacent(g, m, c)
    ensures PearlBlocks(g, z, a, m, c) <==> !ActiveTriplet(g, a, m, c, z, AncestorsOf(g, z))
  {
    AncestorsOfIff(g, z, m);
    if HasArc(g, a, m) { NoTwoCycle(g, a, m); }
    if HasArc(g, c, m) { NoTwoCycle(g, c, m); }
  }

  /** On an acyclic graph the triplet rule decides Pearl's d-separation. */
  lemma SeparatedIsPearl(g: seq<Arc>, x: Node, y: Node, z: set<Node>)
    requires Acyclic(g)
    ensures Separated(g, x, y, z, z) <==> PearlSeparated(g, x, y, z)
  {
    var anc := AncestorsOf(g, z);
    forall p | PearlPath(g, p, x, y)
      ensures PearlBlocked(g, z, p) <==> !ActivePath(g, z, anc, p, x, y)
    {
      forall i | 0 < i < |p| - 1
        ensures PearlBlocks(g, z, p[i - 1], p[i], p[i + 1]) <==> !ActiveAt(g, z, anc, p, i)
      {
        assert Adjacent(g, p[i - 1], p[i - 1 + 1]) && Adjacent(g, p[i], p[i + 1]);
        BlocksIffInactive(g, z, p[i - 1], p[i], p[i + 1]);
      }
      if ActivePath(g, z, anc, p, x, y) {
        forall i | 0 < i < |p| - 1
          ensures !PearlBlocks(g, z, p[i - 1], p[i], p[i + 1])
        {
          assert ActiveAt(g, z, anc, p, i);
        }
      } else {
        var i :| !ActiveAt(g, z, anc, p, i);
        assert 0 < i < |p| - 1 && PearlBlocks(g, z, p[i - 1], p[i], p[i + 1]);
      }
    }
    if !Separated(g, x, y, z, z) {
      var p :| ActivePath(g, z, anc, p, x, y);
      assert PearlPath(g, p, x, y);
    }
    if !PearlSeparated(g, x, y, z) {
      var p :| PearlPath(g, p, x, y) && !PearlBlocked(g, z, p);
      assert ActivePath(g, z, anc, p, x, y);
    }
  }

  // ---------------------------------------------------------------------
  // The local Markov argument

  ghost function ParentsOf(g: seq<Arc>, x: Node): set<Node> {
    set e | e in g && e.to == x :: e.from
  }

  /** How an active trail can leave x when only parents of x are conditioned on:
      along an arc only if it is directed all the way to its end, against an arc
      only through an unconditioned parent or straight to its end. */
  lemma FirstStep(g: seq<Arc>, x: Node, z: set<Node>, w: seq<Node>)
    requires Acyclic(g) && z <= ParentsOf(g, x)
    requires ActiveTrail(g, z, AncestorsOf(g, z), w) && |w| >= 2 && w[0] == x
    ensures HasArc(g, x, w[1]) ==> Ancestor(g, x, w[|w| - 1])
    ensures HasArc(g, w[1], x) && |w| >= 3 ==> w[1] !in z
  {
    var anc := AncestorsOf(g, z);
    AncestorsOfUpwardClosed(g, z, z);
    if HasArc(g, x, w[1]) {
      if j :| 0 < j < |w| && !HasArc(g, w[j - 1], w[j]) {
        ForwardClimb(g, z, anc, w, 0, j);
        AncestorsOfIff(g, z, x);
        var d :| d in z && Ancestor(g, x, d);
        ArcIsAncestor(g, d, x);
        AncestorTrans(g, x, d, x);
        assert false;
      }
      forall i | 0 <= i < |w| - 1
        ensures HasArc(g, w[i], w[i + 1])
      {
        assert 0 < i + 1 < |w| && w[i + 1 - 1] == w[i];
      }
      assert WalkFromTo(g, w, x, w[|w| - 1]);
    }
    if HasArc(g, w[1], x) {
      NoTwoCycle(g, w[1], x);
      assert ActiveAt(g, z, anc, w, 1);
    }
  }
}
