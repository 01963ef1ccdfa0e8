/** What conditioning maps with false entries do to the d-separation answer. */
module ConditioningMaps {
  import opened Digraph
  import opened DSepTheory
  import opened DSeparation
  import opened AdjustmentSet

  /** Any two parents of a node that has a child are adjacent. */
  ghost predicate ParentsJoined(g: seq<Arc>) {
    forall a, b, c, f :: HasArc(g, a, b) && HasArc(g, c, b) && a != c && HasArc(g, b, f) ==> Adjacent(g, a, c)
  }

  /** Keys whose value is false, ancestors of which are marked too, never change the answer. */
  ghost predicate FalseKeysIdle(g: seq<Arc>) {
    forall x, y, z, keys :: z <= keys ==> (Separated(g, x, y, z, keys) <==> PearlSeparated(g, x, y, z))
  }

  lemma MoreKeysMoreAncestors(g: seq<Arc>, z: set<Node>, keys: set<Node>)
    requires z <= keys
    ensures AncestorsOf(g, z) <= AncestorsOf(g, keys)
  {
  }

  /** More keys only open colliders. */
  lemma MoreKeysOpen(g: seq<Arc>, z: set<Node>, keys: set<Node>, p: seq<Node>)
    requires z <= keys && ActiveTrail(g, z, AncestorsOf(g, z), p)
    ensures ActiveTrail(g, z, AncestorsOf(g, keys), p)
  {
    MoreKeysMoreAncestors(g, z, keys);
    forall i
      ensures ActiveAt(g, z, AncestorsOf(g, keys), p, i)
    {
      assert ActiveAt(g, z, AncestorsOf(g, z), p, i);
    }
  }

  /** p without its inner node i. */
  ghost function CutOut(p: seq<Node>, i: nat): (r: seq<Node>)
    requires 0 < i < |p| - 1
    ensures |r| == |p| - 1
    ensures forall k :: 0 <= k < i ==> r[k] == p[k]
    ensures forall k :: i <= k < |r| ==> r[k] == p[k + 1]
  {
    p[..i] + p[i + 1..]
  }

  /** A collider between adjacent nodes can be cut out of an active path: the neighbour that
      becomes a collider lies above the same key. */
  lemma CutCollider(g: seq<Arc>, z: set<Node>, anc: set<Node>, p: seq<Node>, i: nat)
    requires Acyclic(g) && UpwardClosed(g, z, anc) && ActiveTrail(g, z, anc, p) && Distinct(p)
    requires 0 < i < |p| - 1 && HasArc(g, p[i - 1], p[i]) && HasArc(g, p[i + 1], p[i]) && p[i] in anc
    requires Adjacent(g, p[i - 1], p[i + 1])
    ensures ActivePath(g, z, anc, CutOut(p, i), p[0], p[|p| - 1])
  {
    hide UpwardClosed, Acyclic;
    var r := CutOut(p, i);
    NoTwoCycle(g, p[i - 1], p[i]);
    NoTwoCycle(g, p[i + 1], p[i]);
    AboveMarked(g, z, anc, p[i - 1], p[i]);
    AboveMarked(g, z, anc, p[i + 1], p[i]);
    forall k | 0 <= k < |r| - 1
      ensures Adjacent(g, r[k], r[k + 1])
    {
      assert k < i - 1 ==> Adjacent(g, p[k], p[k + 1]);
      assert k >= i ==> Adjacent(g, p[k + 1], p[k + 1 + 1]);
    }
    forall k
      ensures ActiveAt(g, z, anc, r, k)
    {
      if 0 < k < |r| - 1 {
        assert ActiveAt(g, z, anc, p, k);
        assert ActiveAt(g, z, anc, p, k + 1);
      }
    }
  }

  lemma AboveMarked(g: seq<Arc>, z: set<Node>, anc: set<Node>, a: Node, b: Node)
    requires UpwardClosed(g, z, anc) && HasArc(g, a, b) && b in anc
    ensures a in anc
  {
  }

  /** Where parents are joined, an active path for more keys can be cut down to one for z alone. */
  lemma {:induction false} CutToPearl(g: seq<Arc>, z: set<Node>, keys: set<Node>, p: seq<Node>, x: Node, y: Node)
    requires Acyclic(g) && ParentsJoined(g) && z <= keys && ActivePath(g, z, AncestorsOf(g, keys), p, x, y)
    ensures !Separated(g, x, y, z, z)
    decreases |p|
  {
    if i :| !ActiveAt(g, z, AncestorsOf(g, z), p, i) {
      var b := p[i];
      assert ActiveAt(g, z, AncestorsOf(g, keys), p, i);
      AncestorsOfIff(g, keys, b);
      var d :| d in keys && Ancestor(g, b, d);
      var f := AncestorFirstArc(g, b, d);
      assert p[i - 1] != p[i + 1];
      AncestorsOfUpwardClosed(g, z, keys);
      CutCollider(g, z, AncestorsOf(g, keys), p, i);
      CutToPearl(g, z, keys, CutOut(p, i), x, y);
    } else {
      assert ActivePath(g, z, AncestorsOf(g, z), p, x, y);
    }
  }

  /** Two non-adjacent parents of b are joined by marking a child of b with the value false. */
  lemma FalseKeyJoins(g: seq<Arc>, a: Node, b: Node, c: Node, f: Node)
    requires Acyclic(g) && HasArc(g, a, b) && HasArc(g, c, b) && a != c && HasArc(g, b, f)
    requires !Adjacent(g, a, c) && !Ancestor(g, a, c)
    ensures !FalseKeysIdle(g)
  {
    var z := ParentsOf(g, a) - {c};
    var keys := z + {f};
    LocalMarkov(g, a, c);
    SeparatedIsPearl(g, a, c, z);
    NoTwoCycle(g, a, b);
    NoTwoCycle(g, c, b);
    ArcIsAncestor(g, b, f);
    AncestorsOfIff(g, keys, b);
    assert ActivePath(g, z, AncestorsOf(g, keys), [a, b, c], a, c);
    assert !Separated(g, a, c, z, keys);
  }

  /** False entries are idle exactly when any two parents of a node with a child are adjacent. */
  lemma FalseKeysIdleIff(g: seq<Arc>)
    requires Acyclic(g)
    ensures FalseKeysIdle(g) <==> ParentsJoined(g)
  {
    if ParentsJoined(g) {
      forall x, y, z, keys | z <= keys
        ensures Separated(g, x, y, z, keys) <==> PearlSeparated(g, x, y, z)
      {
        SeparatedIsPearl(g, x, y, z);
        if p :| ActivePath(g, z, AncestorsOf(g, keys), p, x, y) {
          CutToPearl(g, z, keys, p, x, y);
        }
        if p :| ActivePath(g, z, AncestorsOf(g, z), p, x, y) {
          MoreKeysOpen(g, z, keys, p);
          assert ActivePath(g, z, AncestorsOf(g, keys), p, x, y);
        }
      }
    } else {
      var a, b, c, f :| HasArc(g, a, b) && HasArc(g, c, b) && a != c && HasArc(g, b, f) && !Adjacent(g, a, c);
      if Ancestor(g, a, c) {
        if Ancestor(g, c, a) {
          AncestorTrans(g, a, c, a);
          assert false;
        }
        FalseKeyJoins(g, c, b, a, f);
      } else {
        FalseKeyJoins(g, a, b, c, f);
      }
    }
  }

  /** The search gives Pearl's answer for every pair and every boolean map. */
  ghost predicate AlwaysPearlOnMaps(g: seq<Arc>) {
    forall x, y, m: map<Node, bool> {:trigger SearchFinds(g, x, y, TrueKeys(m), AncestorsOf(g, m.Keys), "")} ::
      SearchFinds(g, x, y, TrueKeys(m), AncestorsOf(g, m.Keys), "") <==> !PearlSeparated(g, x, y, TrueKeys(m))
  }

  ghost function MapOf(z: set<Node>, keys: set<Node>): (m: map<Node, bool>)
    requires z <= keys
    ensures m.Keys == keys && TrueKeys(m) == z
  {
    map k | k in keys :: k in z
  }

  /** On an acyclic graph the search is right on all maps exactly when no name is empty and any
      two parents of a node with a child are adjacent. */
  lemma AlwaysPearlOnMapsIff(g: seq<Arc>)
    requires Acyclic(g)
    ensures AlwaysPearlOnMaps(g) <==> NamesNonEmpty(g) && ParentsJoined(g)
  {
    FalseKeysIdleIff(g);
    AlwaysPearlIff(g);
    if NamesNonEmpty(g) && ParentsJoined(g) {
      forall x, y, m: map<Node, bool>
        ensures SearchFinds(g, x, y, TrueKeys(m), AncestorsOf(g, m.Keys), "") <==>
                  !PearlSeparated(g, x, y, TrueKeys(m))
      {
        SearchIsSeparation(g, x, y, TrueKeys(m), m.Keys);
      }
    }
    if AlwaysPearlOnMaps(g) {
      forall x, y, z
        ensures SearchFinds(g, x, y, z, AncestorsOf(g, z), "") <==> !PearlSeparated(g, x, y, z)
      {
        var m := MapOf(z, z);
        assert SearchFinds(g, x, y, TrueKeys(m), AncestorsOf(g, m.Keys), "") <==> !PearlSeparated(g, x, y, TrueKeys(m));
      }
      assert AlwaysPearl(g);
      forall x, y, z, keys | z <= keys
        ensures Separated(g, x, y, z, keys) <==> PearlSeparated(g, x, y, z)
      {
        var m := MapOf(z, keys);
        assert SearchFinds(g, x, y, TrueKeys(m), AncestorsOf(g, m.Keys), "") <==> !PearlSeparated(g, x, y, TrueKeys(m));
        SearchIsSeparation(g, x, y, z, keys);
      }
    }
  }
}
