/** The mutable graph objects that the explanation phase, the what-if engine and
    the agent clone and overwrite, and the model each graph stands for. */
module ScmGraph {
  import opened Digraph
  import opened Ids
  import opened Kahn
  import opened RidgeFit
  import opened ScmSemantics

  class CausalNode {
    const id: Node
    var parents: seq<Node>
    var fn: StructuralFn
    var noise: real

    constructor (id: Node, parents: seq<Node>, fn: StructuralFn, noise: real)
      ensures this.id == id && this.parents == parents && this.fn == fn && this.noise == noise
    {
      this.id := id;
      this.parents := parents;
      this.fn := fn;
      this.noise := noise;
    }

    ghost function View(): Equation
      reads this
    {
      Equation(parents, fn, noise)
    }
  }

  class CausalGraph {
    var nodes: map<Node, CausalNode>
    var edges: seq<Arc>

    ghost predicate Valid()
      reads this, nodes.Values
    {
      && (forall n :: n in nodes ==> nodes[n].id == n)
      && Endpoints(edges) <= nodes.Keys
    }

    ghost function Model(): (m: Scm)
      reads this, nodes.Values
      ensures m.nodes.Keys == nodes.Keys
    {
      Scm(map n | n in nodes :: nodes[n].View(), edges)
    }

    constructor (nodes: map<Node, CausalNode>, edges: seq<Arc>)
      ensures this.nodes == nodes && this.edges == edges
    {
      this.nodes := nodes;
      this.edges := edges;
    }
  }

  /** The IDs of a graph, in the arbitrary order of its map. */
  method Keys<V>(m: map<Node, V>) returns (ids: seq<Node>)
    ensures Distinct(ids) && SeqSet(ids) == m.Keys
  {
    ids := [];
    var left := m.Keys;
    while left != {}
      invariant left <= m.Keys && Distinct(ids) && SeqSet(ids) == m.Keys - left
      decreases left
    {
      var n :| n in left;
      left := left - {n};
      ids := ids + [n];
      assert SeqSet(ids) == SeqSet(ids[..|ids| - 1]) + {n};
    }
  }

  method SortedKeys<V>(m: map<Node, V>) returns (ids: seq<Node>)
    ensures Sorted(ids) && Distinct(ids) && SeqSet(ids) == m.Keys
  {
    var keys := Keys(m);
    ids := SortIDs(keys);
    SameElements(ids, keys);
    DistinctPermutation(keys, ids);
    assert SeqSet(ids) == SeqSet(keys);
  }

  /** Two models with the same edges and the same equations are the same. */
  lemma SameModel(a: Scm, b: Scm)
    requires a.edges == b.edges && a.nodes.Keys == b.nodes.Keys
    requires forall n :: n in a.nodes ==> a.nodes[n] == b.nodes[n]
    ensures a == b
  {
    assert a.nodes == b.nodes;
  }

  /** Overwrite the noise of every node. */
  method SetNoise(g: CausalGraph, ids: seq<Node>, u: map<Node, real>)
    requires g.Valid() && SeqSet(ids) == g.nodes.Keys
    modifies g.nodes.Values
    ensures g.Valid() && g.nodes == old(g.nodes) && g.edges == old(g.edges)
    ensures g.Model() == WithNoise(old(g.Model()), u)
  {
    hide WithNoise;
    ghost var m := g.Model();
    assert forall n :: n in ids ==> n in SeqSet(ids);
    ghost var done: set<Node> := {};
    for i := 0 to |ids|
      invariant forall k :: 0 <= k < i ==> ids[k] in done
      invariant forall n :: n in g.nodes ==>
                  g.nodes[n].View() == if n in done then m.nodes[n].(noise := Lookup(u, n)) else m.nodes[n]
    {
      var n := g.nodes[ids[i]];
      assert n.View() == m.nodes[ids[i]] || n.View() == m.nodes[ids[i]].(noise := Lookup(u, ids[i]));
      n.noise := Lookup(u, ids[i]);
      done := done + {ids[i]};
    }
    NoiseSet(g.Model(), m, ids, done, u);
  }

  lemma NoiseSet(after: Scm, m: Scm, ids: seq<Node>, done: set<Node>, u: map<Node, real>)
    requires after.nodes.Keys == m.nodes.Keys == SeqSet(ids) && after.edges == m.edges
    requires forall k :: 0 <= k < |ids| ==> ids[k] in done
    requires forall n :: n in m.nodes ==>
               after.nodes[n] == if n in done then m.nodes[n].(noise := Lookup(u, n)) else m.nodes[n]
    ensures after == WithNoise(m, u)
  {
    assert forall n :: n in m.nodes ==> n in SeqSet(ids);
    SameModel(after, WithNoise(m, u));
  }

  /** Overwrite the functions of the intervened nodes with constants. */
  method SetConstants(g: CausalGraph, ids: seq<Node>, acts: map<Node, real>)
    requires g.Valid() && SeqSet(ids) == acts.Keys <= g.nodes.Keys
    modifies g.nodes.Values
    ensures g.Valid() && g.nodes == old(g.nodes) && g.edges == old(g.edges)
    ensures g.Model() == Intervened(old(g.Model()), acts)
  {
    hide Intervened;
    ghost var m := g.Model();
    assert forall n :: n in ids ==> n in SeqSet(ids);
    ghost var done: set<Node> := {};
    for i := 0 to |ids|
      invariant done <= acts.Keys && forall k :: 0 <= k < i ==> ids[k] in done
      invariant forall n :: n in g.nodes ==>
                  g.nodes[n].View() == if n in done then m.nodes[n].(fn := Const(acts[n])) else m.nodes[n]
    {
      var n := g.nodes[ids[i]];
      assert n.id == ids[i];
      assert n.View() == m.nodes[ids[i]] || n.View() == m.nodes[ids[i]].(fn := Const(acts[ids[i]]));
      n.fn := Const(acts[ids[i]]);
      done := done + {ids[i]};
    }
    ConstantsSet(g.Model(), m, ids, done, acts);
  }

  lemma ConstantsSet(after: Scm, m: Scm, ids: seq<Node>, done: set<Node>, acts: map<Node, real>)
    requires after.nodes.Keys == m.nodes.Keys && after.edges == m.edges
    requires done <= acts.Keys == SeqSet(ids) && forall k :: 0 <= k < |ids| ==> ids[k] in done
    requires forall n :: n in m.nodes ==>
               after.nodes[n] == if n in done then m.nodes[n].(fn := Const(acts[n])) else m.nodes[n]
    ensures after == Intervened(m, acts)
  {
    assert forall n :: n in acts ==> n in SeqSet(ids);
    SameModel(after, Intervened(m, acts));
  }

  /** Look up each parent's value, in parent order. */
  method GatherInputs(v: Values, parents: seq<Node>) returns (inputs: seq<real>)
    ensures inputs == Inputs(v, parents)
  {
    inputs := [];
    for i := 0 to |parents|
      invariant inputs == Inputs(v, parents)[..i]
    {
      inputs := inputs + [Lookup(v, parents[i])];
    }
  }
}
