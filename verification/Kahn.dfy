/** Kahn's algorithm and the two sorted orderings built on it. */
module Kahn {
  import opened Digraph
  import opened Ids

  // ---------------------------------------------------------------------
  // Counting arcs

  /** How many of the first i arcs enter n from outside `done`. */
  ghost function Pending(g: seq<Arc>, i: nat, done: set<Node>, n: Node): nat
    requires i <= |g|
  {
    if i == 0 then 0
    else Pending(g, i - 1, done, n) + if g[i - 1].to == n && g[i - 1].from !in done then 1 else 0
  }

  /** How many of the first i arcs lead from c to n. */
  ghost function ArcCount(g: seq<Arc>, i: nat, c: Node, n: Node): nat
    requires i <= |g|
  {
    if i == 0 then 0
    else ArcCount(g, i - 1, c, n) + if g[i - 1] == Arc(c, n) then 1 else 0
  }

  lemma {:induction false} PendingWithout(g: seq<Arc>, i: nat, done: set<Node>, c: Node, n: Node)
    requires i <= |g| && c !in done
    ensures Pending(g, i, done + {c}, n) + ArcCount(g, i, c, n) == Pending(g, i, done, n)
  {
    if i > 0 {
      PendingWithout(g, i - 1, done, c, n);
    }
  }

  lemma {:induction false} PendingZero(g: seq<Arc>, i: nat, done: set<Node>, n: Node)
    requires i <= |g|
    ensures Pending(g, i, done, n) == 0 <==> forall k :: 0 <= k < i && g[k].to == n ==> g[k].from in done
  {
    if i > 0 {
      PendingZero(g, i - 1, done, n);
    }
  }

  lemma {:induction false} PendingMonotone(g: seq<Arc>, i: nat, j: nat, done: set<Node>, n: Node)
    requires i <= j <= |g|
    ensures Pending(g, i, done, n) <= Pending(g, j, done, n)
    decreases j - i
  {
    if i < j {
      PendingMonotone(g, i, j - 1, done, n);
    }
  }

  /** Meeting one more arc out of c, its head still has something pending. */
  lemma OneMorePending(g: seq<Arc>, i: nat, done: set<Node>, c: Node)
    requires i < |g| && c !in done && g[i].from == c
    ensures Pending(g, |g|, done, g[i].to) >= ArcCount(g, i, c, g[i].to) + 1
  {
    PendingWithout(g, i, done, c, g[i].to);
    PendingMonotone(g, i + 1, |g|, done, g[i].to);
  }

  lemma NoPendingIff(g: seq<Arc>, done: set<Node>, n: Node)
    ensures Pending(g, |g|, done, n) == 0 <==> forall p :: HasArc(g, p, n) ==> p in done
  {
    PendingZero(g, |g|, done, n);
    if Pending(g, |g|, done, n) == 0 {
      forall p | HasArc(g, p, n)
        ensures p in done
      {
        var k :| 0 <= k < |g| && g[k] == Arc(p, n);
      }
    } else {
      var k :| 0 <= k < |g| && g[k].to == n && g[k].from !in done;
      assert HasArc(g, g[k].from, n);
    }
  }

  // ---------------------------------------------------------------------
  // The state of a pass

  /** Every parent of an element comes before it. */
  ghost predicate Forward(g: seq<Arc>, order: seq<Node>) {
    forall i, p :: 0 <= i < |order| && HasArc(g, p, order[i]) ==> p in order[..i]
  }

  ghost predicate Running(g: seq<Arc>, nodes: set<Node>, inDeg: map<Node, int>, done: seq<Node>, queue: seq<Node>) {
    && Endpoints(g) <= nodes && inDeg.Keys == nodes
    && Distinct(done + queue) && SeqSet(done + queue) <= nodes
    && (forall n :: n in nodes ==> inDeg[n] == Pending(g, |g|, SeqSet(done), n))
    && (forall n :: n in nodes ==> (n in done + queue <==> inDeg[n] == 0))
    && Forward(g, done)
  }

  /** Half way through the arcs for c: `newly` lists the nodes whose count reached zero. */
  ghost predicate Releasing(g: seq<Arc>, nodes: set<Node>, was: map<Node, int>, c: Node,
                            inDeg: map<Node, int>, newly: seq<Node>, i: nat) {
    && i <= |g| && inDeg.Keys == was.Keys == nodes
    && (forall n :: n in nodes ==> inDeg[n] == was[n] - ArcCount(g, i, c, n))
    && Distinct(newly)
    && (forall n :: n in newly <==> n in nodes && was[n] > 0 && inDeg[n] == 0)
  }

  /** The nodes released by c, in arc order. */
  ghost function Released(g: seq<Arc>, done: set<Node>, c: Node, i: nat): seq<Node>
    requires i <= |g|
  {
    if i == 0 then []
    else
      var prev := Released(g, done, c, i - 1);
      var n := g[i - 1].to;
      if g[i - 1].from == c && Pending(g, |g|, done, n) == ArcCount(g, i, c, n) then prev + [n] else prev
  }

  lemma RunningFront(g: seq<Arc>, nodes: set<Node>, inDeg: map<Node, int>, done: seq<Node>, queue: seq<Node>)
    requires Running(g, nodes, inDeg, done, queue) && |queue| > 0
    ensures queue[0] in nodes && queue[0] !in done && |done| < |nodes|
  {
    var c := queue[0];
    assert (done + queue)[|done|] == c;
    assert c in SeqSet(done + queue);
    assert Distinct(done + [c]) by {
      forall i, j | 0 <= i < j < |done| + 1
        ensures (done + [c])[i] != (done + [c])[j]
      {
        assert (done + queue)[i] == (done + [c])[i] && (done + queue)[j] == (done + [c])[j];
      }
    }
    forall i | 0 <= i < |done|
      ensures done[i] != c
    {
      assert (done + [c])[i] != (done + [c])[|done|];
    }
    DistinctCard(done + [c]);
    forall n | n in SeqSet(done + [c])
      ensures n in nodes
    {
      assert n in SeqSet(done + queue);
    }
    SubsetCard(SeqSet(done + [c]), nodes);
  }

  lemma ReleaseStart(g: seq<Arc>, nodes: set<Node>, was: map<Node, int>, c: Node)
    requires was.Keys == nodes
    ensures Releasing(g, nodes, was, c, was, [], 0)
  {
  }

  lemma ReleaseMiss(g: seq<Arc>, nodes: set<Node>, was: map<Node, int>, c: Node,
                    inDeg: map<Node, int>, newly: seq<Node>, i: nat)
    requires Releasing(g, nodes, was, c, inDeg, newly, i) && i < |g| && g[i].from != c
    ensures Releasing(g, nodes, was, c, inDeg, newly, i + 1)
  {
  }

  lemma ReleaseHit(g: seq<Arc>, nodes: set<Node>, was: map<Node, int>, done: set<Node>, c: Node,
                   inDeg: map<Node, int>, newly: seq<Node>, i: nat)
    requires Releasing(g, nodes, was, c, inDeg, newly, i) && i < |g| && g[i].from == c && g[i].to in nodes
    requires c !in done && was[g[i].to] == Pending(g, |g|, done, g[i].to)
    ensures inDeg[g[i].to] >= 1
    ensures var m := g[i].to; var d := inDeg[m] - 1;
            Releasing(g, nodes, was, c, inDeg[m := d], if d == 0 then newly + [m] else newly, i + 1) &&
            (d == 0 <==> Pending(g, |g|, done, m) == ArcCount(g, i + 1, c, m))
  {
    var m := g[i].to;
    OneMorePending(g, i, done, c);
    forall n | n in nodes && n != m
      ensures ArcCount(g, i + 1, c, n) == ArcCount(g, i, c, n)
    {
    }
    assert ArcCount(g, i + 1, c, m) == ArcCount(g, i, c, m) + 1;
  }

  lemma StepForward(g: seq<Arc>, done: seq<Node>, c: Node)
    requires Forward(g, done) && forall p :: HasArc(g, p, c) ==> p in done
    ensures Forward(g, done + [c])
  {
    var d := done + [c];
    forall i, p | 0 <= i < |d| && HasArc(g, p, d[i])
      ensures p in d[..i]
    {
      assert i < |done| ==> d[..i] == done[..i];
      assert i == |done| ==> d[..i] == done;
    }
  }

  /** The counters are those of the arcs that do not leave a finished node ... */
  lemma StepCounts(g: seq<Arc>, nodes: set<Node>, was: map<Node, int>, done: seq<Node>, c: Node,
                   inDeg: map<Node, int>, newly: seq<Node>)
    requires Releasing(g, nodes, was, c, inDeg, newly, |g|) && c !in done
    requires forall n :: n in nodes ==> was[n] == Pending(g, |g|, SeqSet(done), n)
    ensures forall n :: n in nodes ==> inDeg[n] == Pending(g, |g|, SeqSet(done + [c]), n)
    ensures forall n :: n in nodes ==> inDeg[n] <= was[n]
  {
    assert SeqSet(done + [c]) == SeqSet(done) + {c};
    forall n | n in nodes
      ensures inDeg[n] == Pending(g, |g|, SeqSet(done + [c]), n) <= was[n]
    {
      PendingWithout(g, |g|, SeqSet(done), c, n);
    }
  }

  /** ... and the nodes met so far are those whose counter is zero. */
  lemma StepMembers(nodes: set<Node>, was: map<Node, int>, before: seq<Node>, inDeg: map<Node, int>, ordered: seq<Node>)
    requires was.Keys == inDeg.Keys == nodes && Distinct(before) && SeqSet(before) <= nodes && Distinct(ordered)
    requires forall n :: n in nodes ==> (n in before <==> was[n] == 0) && 0 <= inDeg[n] <= was[n]
    requires forall n :: n in ordered <==> n in nodes && was[n] > 0 && inDeg[n] == 0
    ensures Distinct(before + ordered) && SeqSet(before + ordered) <= nodes
    ensures forall n :: n in nodes ==> (n in before + ordered <==> inDeg[n] == 0)
  {
    forall n | n in ordered
      ensures n !in before
    {
      assert n in nodes && was[n] > 0;
    }
    DistinctConcat(before, ordered);
    forall n | n in SeqSet(before + ordered)
      ensures n in nodes
    {
      assert n in SeqSet(before) || n in ordered;
    }
  }

  /** Moving c to the finished nodes and appending what it released, in any order. */
  lemma Step(g: seq<Arc>, nodes: set<Node>, was: map<Node, int>, done: seq<Node>, c: Node, rest: seq<Node>,
             inDeg: map<Node, int>, newly: seq<Node>, ordered: seq<Node>)
    requires Running(g, nodes, was, done, [c] + rest)
    requires Releasing(g, nodes, was, c, inDeg, newly, |g|)
    requires multiset(ordered) == multiset(newly)
    ensures Running(g, nodes, inDeg, done + [c], rest + ordered)
  {
    hide Pending, ArcCount, Distinct, SeqSet, Forward, HasArc, Endpoints;
    var before := done + ([c] + rest);
    RunningFront(g, nodes, was, done, [c] + rest);
    StepCounts(g, nodes, was, done, c, inDeg, newly);
    SameElements(ordered, newly);
    DistinctPermutation(newly, ordered);
    StepMembers(nodes, was, before, inDeg, ordered);
    assert before + ordered == (done + [c]) + (rest + ordered);
    assert before[|done|] == c;
    NoPendingIff(g, SeqSet(done), c);
    forall p | HasArc(g, p, c)
      ensures p in done
    {
      InSeqSet(done, p);
    }
    StepForward(g, done, c);
  }

  lemma InSeqSet(s: seq<Node>, n: Node)
    ensures n in SeqSet(s) <==> n in s
  {
  }

  lemma DistinctConcat(a: seq<Node>, b: seq<Node>)
    requires Distinct(a) && Distinct(b) && forall n :: n in b ==> n !in a
    ensures Distinct(a + b)
  {
    forall i, j | 0 <= i < j < |a + b|
      ensures (a + b)[i] != (a + b)[j]
    {
      if i < |a| <= j {
        assert (a + b)[j] in b;
      }
    }
  }

  lemma DistinctPermutation(s: seq<Node>, t: seq<Node>)
    requires Distinct(s) && multiset(s) == multiset(t)
    ensures Distinct(t)
  {
    forall x
      ensures multiset(s)[x] <= 1
    {
      DistinctOnce(s, x);
    }
    if i, j :| 0 <= i < j < |t| && t[i] == t[j] {
      RepeatedCountsTwice(t, i, j);
    }
  }

  lemma RepeatedCountsTwice(t: seq<Node>, i: nat, j: nat)
    requires i < j < |t| && t[i] == t[j]
    ensures multiset(t)[t[i]] >= 2
  {
    assert t == t[..i] + [t[i]] + t[i + 1..j] + [t[j]] + t[j + 1..];
  }

  lemma {:induction false} DistinctOnce(s: seq<Node>, x: Node)
    requires Distinct(s)
    ensures multiset(s)[x] == if x in s then 1 else 0
  {
    if s != [] {
      var t := s[..|s| - 1];
      DistinctOnce(t, x);
      assert s == t + [s[|s| - 1]];
    }
  }

  // ---------------------------------------------------------------------
  // What the queue reaches

  /** Neither n nor any of its ancestors lies on a cycle. */
  ghost predicate Grounded(g: seq<Arc>, n: Node) {
    forall c :: Ancestor(g, c, c) ==> !Reaches(g, c, n)
  }

  lemma AcyclicGrounded(g: seq<Arc>, n: Node)
    requires Acyclic(g)
    ensures Grounded(g, n)
  {
  }

  lemma GroundedParent(g: seq<Arc>, p: Node, n: Node)
    requires Grounded(g, n) && HasArc(g, p, n)
    ensures Grounded(g, p)
  {
    forall c | Ancestor(g, c, c)
      ensures !Reaches(g, c, p)
    {
      if Reaches(g, c, p) {
        ArcIsAncestor(g, p, n);
        ReachesIff(g, p, n);
        ReachesTrans(g, c, p, n);
      }
    }
  }

  /** Going back along a walk, positions in a forward order go down. */
  lemma {:induction false} WalkPositions(g: seq<Arc>, order: seq<Node>, w: seq<Node>, j: nat) returns (i: nat)
    requires Forward(g, order) && IsWalk(g, w) && j < |order| && order[j] == w[|w| - 1]
    ensures i <= j && order[i] == w[0] && (|w| >= 2 ==> i < j)
    decreases |w|
  {
    if |w| == 1 {
      i := j;
    } else {
      var v := w[..|w| - 1];
      assert HasArc(g, w[|w| - 2], w[|w| - 2 + 1]);
      assert w[|w| - 2] in order[..j];
      var k :| 0 <= k < j && order[k] == w[|w| - 2];
      i := WalkPositions(g, order, v, k);
    }
  }

  lemma ForwardGrounded(g: seq<Arc>, order: seq<Node>, n: Node)
    requires Forward(g, order) && Distinct(order) && n in order
    ensures Grounded(g, n)
  {
    var j :| 0 <= j < |order| && order[j] == n;
    forall c | Ancestor(g, c, c)
      ensures !Reaches(g, c, n)
    {
      if w :| WalkFromTo(g, w, c, n) {
        var i := WalkPositions(g, order, w, j);
        var v :| WalkFromTo(g, v, c, c) && |v| >= 2;
        var k := WalkPositions(g, order, v, i);
        assert order[k] == order[i] && k < i;
      }
    }
  }

  /** When the queue is empty, exactly the grounded nodes are finished. */
  lemma DoneIffGrounded(g: seq<Arc>, nodes: set<Node>, inDeg: map<Node, int>, done: seq<Node>)
    requires Running(g, nodes, inDeg, done, [])
    ensures Distinct(done) && SeqSet(done) <= nodes
    ensures forall n :: n in nodes ==> (n in done <==> Grounded(g, n)) && (n in done <==> inDeg[n] == 0)
  {
    assert done + [] == done;
    var left := nodes - SeqSet(done);
    forall n | n in left
      ensures HasParentIn(g, left, n)
    {
      NoPendingIff(g, SeqSet(done), n);
      var p :| HasArc(g, p, n) && p !in SeqSet(done);
      assert p in Endpoints(g) by {
        assert Arc(p, n) in g;
      }
    }
    forall n | n in nodes
      ensures n in done <==> Grounded(g, n)
    {
      if n in done {
        ForwardGrounded(g, done, n);
      } else {
        var c := NoSourceMeansCycle(g, left, n);
      }
    }
  }

  // ---------------------------------------------------------------------
  // In-degrees and seeds

  method InDegrees(g: seq<Arc>, nodes: set<Node>) returns (inDeg: map<Node, int>)
    requires Endpoints(g) <= nodes
    ensures inDeg.Keys == nodes
    ensures forall n :: n in nodes ==> inDeg[n] == Pending(g, |g|, {}, n)
  {
    inDeg := map n | n in nodes :: 0;
    for i := 0 to |g|
      invariant inDeg.Keys == nodes
      invariant forall n :: n in nodes ==> inDeg[n] == Pending(g, i, {}, n)
    {
      assert g[i].to in Endpoints(g);
      inDeg := inDeg[g[i].to := inDeg[g[i].to] + 1];
    }
  }

  /** Collect the nodes whose count satisfies the test; map order is arbitrary. */
  method NodesWithDegree(inDeg: map<Node, int>, zero: bool) returns (ids: seq<Node>)
    ensures Distinct(ids)
    ensures forall n :: n in ids <==> n in inDeg && (if zero then inDeg[n] == 0 else inDeg[n] > 0)
  {
    ids := [];
    var left := inDeg.Keys;
    while left != {}
      invariant left <= inDeg.Keys && Distinct(ids)
      invariant forall n :: n in ids <==> n in inDeg && n !in left && (if zero then inDeg[n] == 0 else inDeg[n] > 0)
      decreases left
    {
      var n :| n in left;
      left := left - {n};
      if (if zero then inDeg[n] == 0 else inDeg[n] > 0) {
        ids := ids + [n];
      }
    }
  }

  lemma Seeded(g: seq<Arc>, nodes: set<Node>, inDeg: map<Node, int>, queue: seq<Node>)
    requires Endpoints(g) <= nodes && inDeg.Keys == nodes
    requires forall n :: n in nodes ==> inDeg[n] == Pending(g, |g|, {}, n)
    requires Distinct(queue) && forall n :: n in queue <==> n in nodes && inDeg[n] == 0
    ensures Running(g, nodes, inDeg, [], queue)
  {
    assert [] + queue == queue;
    assert SeqSet<Node>([]) == {};
  }

  // ---------------------------------------------------------------------
  // The sorted orderings

  method SortIDs(s: seq<Node>) returns (r: seq<Node>)
    ensures r == Sort(s)
  {
    var a := new Node[|s|](i requires 0 <= i < |s| => s[i]);
    assert a[..] == s;
    SortNodesByID(a);
    r := a[..];
  }

  /** The run that releases nodes in ID order, as a function of graph and queue. */
  ghost function SortedRun(g: seq<Arc>, nodes: set<Node>, done: seq<Node>, queue: seq<Node>): seq<Node>
    decreases |nodes| - |done|
  {
    if queue == [] || |done| >= |nodes| then done
    else SortedRun(g, nodes, done + [queue[0]], queue[1..] + Sort(Released(g, SeqSet(done), queue[0], |g|)))
  }

  ghost predicate IsSeed(g: seq<Arc>, nodes: set<Node>, s: seq<Node>) {
    Sorted(s) && Distinct(s) && forall n :: n in s <==> n in nodes && Pending(g, |g|, {}, n) == 0
  }

  lemma {:induction false} DistinctSameSet(s: seq<Node>, t: seq<Node>)
    requires Distinct(s) && Distinct(t) && forall n :: n in s <==> n in t
    ensures multiset(s) == multiset(t)
  {
    forall x
      ensures multiset(s)[x] == multiset(t)[x]
    {
      DistinctOnce(s, x);
      DistinctOnce(t, x);
    }
  }

  lemma SeedUnique(g: seq<Arc>, nodes: set<Node>, s: seq<Node>, t: seq<Node>)
    requires IsSeed(g, nodes, s) && IsSeed(g, nodes, t)
    ensures s == t
  {
    DistinctSameSet(s, t);
    SortedUnique(s, t);
  }

  /** The nodes the queue never reaches, in ID order. */
  ghost predicate IsLeftover(g: seq<Arc>, nodes: set<Node>, l: seq<Node>) {
    Sorted(l) && Distinct(l) && forall n :: n in l <==> n in nodes && !Grounded(g, n)
  }

  lemma LeftoverUnique(g: seq<Arc>, nodes: set<Node>, l: seq<Node>, k: seq<Node>)
    requires IsLeftover(g, nodes, l) && IsLeftover(g, nodes, k)
    ensures l == k
  {
    DistinctSameSet(l, k);
    SortedUnique(l, k);
  }

  /** Every node once, and no grounded node before one of its parents. */
  ghost predicate TopologicalOrder(g: seq<Arc>, nodes: set<Node>, order: seq<Node>) {
    && Distinct(order) && SeqSet(order) == nodes
    && forall i, p :: 0 <= i < |order| && Grounded(g, order[i]) && HasArc(g, p, order[i]) ==> p in order[..i]
  }

  /** The queue phase, common to both orderings. */
  method SortedQueuePhase(g: seq<Arc>, nodes: set<Node>) returns (order: seq<Node>, inDeg: map<Node, int>)
    requires Endpoints(g) <= nodes
    ensures Running(g, nodes, inDeg, order, [])
    ensures forall s :: IsSeed(g, nodes, s) ==> order == SortedRun(g, nodes, [], s)
    ensures exists s :: IsSeed(g, nodes, s)
  {
    hide Running, Releasing, Forward, SortedRun;
    inDeg := InDegrees(g, nodes);
    var seeds := NodesWithDegree(inDeg, true);
    var queue := SortIDs(seeds);
    SameElements(queue, seeds);
    DistinctPermutation(seeds, queue);
    Seeded(g, nodes, inDeg, queue);
    ghost var seed := queue;
    assert IsSeed(g, nodes, seed);
    order := [];
    while |queue| > 0
      invariant Running(g, nodes, inDeg, order, queue)
      invariant SortedRun(g, nodes, order, queue) == SortedRun(g, nodes, [], seed)
      decreases |nodes| - |order|
    {
      RunningFront(g, nodes, inDeg, order, queue);
      SortedRunStep(g, nodes, order, queue);
      var n := queue[0];
      ghost var was, done, rest := inDeg, order, queue[1..];
      assert queue == [n] + rest;
      queue := queue[1..];
      order := order + [n];
      var nexts;
      inDeg, nexts := Release(g, nodes, inDeg, n, done, rest);
      var sortedNexts := SortIDs(nexts);
      queue := queue + sortedNexts;
      Step(g, nodes, was, done, n, rest, inDeg, nexts, sortedNexts);
    }
    SortedRunEnd(g, nodes, order, queue);
    forall s | IsSeed(g, nodes, s)
      ensures order == SortedRun(g, nodes, [], s)
    {
      SeedUnique(g, nodes, s, seed);
    }
  }

  lemma SortedRunStep(g: seq<Arc>, nodes: set<Node>, done: seq<Node>, queue: seq<Node>)
    requires |queue| > 0 && |done| < |nodes|
    ensures SortedRun(g, nodes, done, queue) ==
            SortedRun(g, nodes, done + [queue[0]], queue[1..] + Sort(Released(g, SeqSet(done), queue[0], |g|)))
  {
  }

  lemma SortedRunEnd(g: seq<Arc>, nodes: set<Node>, done: seq<Node>, queue: seq<Node>)
    requires |queue| == 0
    ensures SortedRun(g, nodes, done, queue) == done
  {
  }

  /** The loop over the arcs for one dequeued node. */
  method Release(g: seq<Arc>, nodes: set<Node>, was: map<Node, int>, c: Node,
                 ghost done: seq<Node>, ghost rest: seq<Node>)
    returns (inDeg: map<Node, int>, nexts: seq<Node>)
    requires Running(g, nodes, was, done, [c] + rest)
    ensures Releasing(g, nodes, was, c, inDeg, nexts, |g|)
    ensures nexts == Released(g, SeqSet(done), c, |g|)
  {
    hide Releasing, Forward;
    RunningFront(g, nodes, was, done, [c] + rest);
    ReleaseStart(g, nodes, was, c);
    inDeg, nexts := was, [];
    for i := 0 to |g|
      invariant Releasing(g, nodes, was, c, inDeg, nexts, i)
      invariant inDeg.Keys == nodes
      invariant nexts == Released(g, SeqSet(done), c, i)
    {
      if g[i].from == c {
        assert g[i].to in Endpoints(g);
        ReleaseHit(g, nodes, was, SeqSet(done), c, inDeg, nexts, i);
        inDeg := inDeg[g[i].to := inDeg[g[i].to] - 1];
        if inDeg[g[i].to] == 0 {
          nexts := nexts + [g[i].to];
        }
      } else {
        ReleaseMiss(g, nodes, was, c, inDeg, nexts, i);
      }
    }
  }

  lemma AppendLeftovers(g: seq<Arc>, nodes: set<Node>, inDeg: map<Node, int>, done: seq<Node>, left: seq<Node>)
    requires Running(g, nodes, inDeg, done, [])
    requires Distinct(left) && forall n :: n in left <==> n in inDeg && inDeg[n] > 0
    ensures TopologicalOrder(g, nodes, done + left)
    ensures Acyclic(g) ==> left == []
  {
    DoneIffGrounded(g, nodes, inDeg, done);
    assert done + [] == done;
    var order := done + left;
    DistinctConcat(done, left);
    assert SeqSet(order) == nodes by {
      forall n | n in nodes
        ensures n in order
      {
        assert n in done || inDeg[n] > 0;
      }
    }
    forall i | |done| <= i < |order|
      ensures !Grounded(g, order[i])
    {
      assert order[i] in left;
    }
    forall i, p | 0 <= i < |order| && Grounded(g, order[i]) && HasArc(g, p, order[i])
      ensures p in order[..i]
    {
      assert i < |done| && order[..i] == done[..i];
    }
    assert left == [] || left[0] in left;
    if Acyclic(g) && left != [] {
      AcyclicGrounded(g, left[0]);
    }
  }

  /** The ordering of the explanation phase: leftovers of a cycle in map order. */
  method TopoOrder(g: seq<Arc>, nodes: set<Node>) returns (order: seq<Node>)
    requires Endpoints(g) <= nodes
    ensures TopologicalOrder(g, nodes, order)
    ensures Acyclic(g) ==> forall s :: IsSeed(g, nodes, s) ==> order == SortedRun(g, nodes, [], s)
    ensures forall s :: IsSeed(g, nodes, s) ==> SortedRun(g, nodes, [], s) <= order
  {
    hide Running, TopologicalOrder, SortedRun;
    var inDeg;
    order, inDeg := SortedQueuePhase(g, nodes);
    if |order| < |nodes| {
      var left := NodesWithDegree(inDeg, false);
      AppendLeftovers(g, nodes, inDeg, order, left);
      assert left == [] ==> order + left == order;
      order := order + left;
    } else {
      NothingLeft(g, nodes, inDeg, order);
    }
  }

  lemma NothingLeft(g: seq<Arc>, nodes: set<Node>, inDeg: map<Node, int>, done: seq<Node>)
    requires Running(g, nodes, inDeg, done, []) && |done| >= |nodes|
    ensures TopologicalOrder(g, nodes, done)
  {
    DoneIffGrounded(g, nodes, inDeg, done);
    DistinctCard(done);
    if n :| n in nodes && n !in done {
      SubsetCard(SeqSet(done), nodes - {n});
    }
    AppendLeftovers(g, nodes, inDeg, done, []);
    assert done + [] == done;
  }

  /** The ordering of the agent: leftovers of a cycle in ID order as well. */
  method Topo(g: seq<Arc>, nodes: set<Node>) returns (order: seq<Node>)
    requires Endpoints(g) <= nodes
    ensures TopologicalOrder(g, nodes, order)
    ensures Acyclic(g) ==> forall s :: IsSeed(g, nodes, s) ==> order == SortedRun(g, nodes, [], s)
    ensures exists k :: 0 <= k <= |order| && Sorted(order[k..]) && forall n :: n in order[k..] <==> n in nodes && !Grounded(g, n)
    ensures forall s, l :: IsSeed(g, nodes, s) && IsLeftover(g, nodes, l) ==> order == SortedRun(g, nodes, [], s) + l
    ensures exists s, l :: IsSeed(g, nodes, s) && IsLeftover(g, nodes, l) && order == SortedRun(g, nodes, [], s) + l
  {
    hide Running, TopologicalOrder, SortedRun, IsSeed, Grounded, HasArc;
    var inDeg;
    order, inDeg := SortedQueuePhase(g, nodes);
    DoneIffGrounded(g, nodes, inDeg, order);
    RunningKeys(g, nodes, inDeg, order);
    ghost var k, done, l := |order|, order, [];
    ghost var seed :| IsSeed(g, nodes, seed);
    if |order| < |nodes| {
      var left := NodesWithDegree(inDeg, false);
      var remaining := SortIDs(left);
      SameElements(remaining, left);
      DistinctPermutation(left, remaining);
      AppendLeftovers(g, nodes, inDeg, order, remaining);
      assert remaining == [] ==> order + remaining == order;
      order, l := order + remaining, remaining;
    } else {
      NothingLeft(g, nodes, inDeg, order);
      TopologicalAll(g, nodes, order);
    }
    assert order == done + l && order[k..] == l;
    assert IsLeftover(g, nodes, l);
    forall s, l' | IsSeed(g, nodes, s) && IsLeftover(g, nodes, l')
      ensures order == SortedRun(g, nodes, [], s) + l'
    {
      LeftoverUnique(g, nodes, l, l');
    }
    assert order == SortedRun(g, nodes, [], seed) + l;
  }

  lemma RunningKeys(g: seq<Arc>, nodes: set<Node>, inDeg: map<Node, int>, done: seq<Node>)
    requires Running(g, nodes, inDeg, done, [])
    ensures inDeg.Keys == nodes && forall n :: n in nodes ==> inDeg[n] >= 0
  {
  }

  lemma TopologicalAll(g: seq<Arc>, nodes: set<Node>, order: seq<Node>)
    requires TopologicalOrder(g, nodes, order)
    ensures forall n :: n in order <==> n in nodes
  {
    forall n
      ensures n in order <==> n in SeqSet(order)
    {
    }
  }

  // ---------------------------------------------------------------------
  // The order does not depend on how the edges are listed

  ghost function Count(g: seq<Arc>, p: Arc -> bool): nat {
    if g == [] then 0 else Count(g[..|g| - 1], p) + if p(g[|g| - 1]) then 1 else 0
  }

  lemma {:induction false} CountConcat(g: seq<Arc>, h: seq<Arc>, p: Arc -> bool)
    ensures Count(g + h, p) == Count(g, p) + Count(h, p)
    decreases |h|
  {
    if h == [] {
      assert g + h == g;
    } else {
      CountConcat(g, h[..|h| - 1], p);
      assert (g + h)[..|g + h| - 1] == g + h[..|h| - 1];
    }
  }

  lemma OneRemoved(g: seq<Arc>, h: seq<Arc>, e: Arc, k: nat)
    requires multiset(g + [e]) == multiset(h) && k < |h| && h[k] == e
    ensures multiset(g) == multiset(h[..k] + h[k + 1..])
  {
    var front, back := h[..k], h[k + 1..];
    assert h == front + [e] + back;
    assert multiset(h) == multiset(front) + multiset{e} + multiset(back);
    assert multiset(g + [e]) == multiset(g) + multiset{e};
    assert multiset(front + back) == multiset(front) + multiset(back);
    assert multiset(g) == multiset(h) - multiset{e};
  }

  lemma CountWithout(h: seq<Arc>, k: nat, p: Arc -> bool)
    requires k < |h|
    ensures Count(h, p) == Count(h[..k] + h[k + 1..], p) + if p(h[k]) then 1 else 0
  {
    var front, e, back := h[..k], h[k], h[k + 1..];
    assert h == front + [e] + back;
    assert [e][..0] == [];
    CountConcat(front, back, p);
    CountConcat(front, [e], p);
    CountConcat(front + [e], back, p);
  }

  lemma {:induction false} CountPermuted(g: seq<Arc>, h: seq<Arc>, p: Arc -> bool)
    requires multiset(g) == multiset(h)
    ensures Count(g, p) == Count(h, p)
    decreases |g|
  {
    hide Count;
    assert |g| == |multiset(g)| == |multiset(h)| == |h|;
    if g == [] {
      assert h == [];
    } else {
      var last := |g| - 1;
      var init, e := g[..last], g[last];
      assert init + g[last + 1..] == init && g == init + [e];
      assert e in multiset(h);
      var k :| 0 <= k < |h| && h[k] == e;
      OneRemoved(init, h, e, k);
      CountWithout(g, last, p);
      CountWithout(h, k, p);
      CountPermuted(init, h[..k] + h[k + 1..], p);
    }
  }

  lemma {:induction false} PendingIsCount(g: seq<Arc>, i: nat, done: set<Node>, n: Node, p: Arc -> bool)
    requires i <= |g| && forall a :: p(a) <==> a.to == n && a.from !in done
    ensures Pending(g, i, done, n) == Count(g[..i], p)
  {
    if i > 0 {
      PendingIsCount(g, i - 1, done, n, p);
      assert g[..i][..i - 1] == g[..i - 1];
    }
  }

  lemma {:induction false} ArcCountIsCount(g: seq<Arc>, i: nat, c: Node, n: Node, p: Arc -> bool)
    requires i <= |g| && forall a :: p(a) <==> a == Arc(c, n)
    ensures ArcCount(g, i, c, n) == Count(g[..i], p)
  {
    if i > 0 {
      ArcCountIsCount(g, i - 1, c, n, p);
      assert g[..i][..i - 1] == g[..i - 1];
    }
  }

  lemma CountsPermuted(g: seq<Arc>, h: seq<Arc>, done: set<Node>, c: Node, n: Node)
    requires multiset(g) == multiset(h)
    ensures Pending(g, |g|, done, n) == Pending(h, |h|, done, n)
    ensures ArcCount(g, |g|, c, n) == ArcCount(h, |h|, c, n)
  {
    var p, q := (a: Arc) => a.to == n && a.from !in done, (a: Arc) => a == Arc(c, n);
    PendingIsCount(g, |g|, done, n, p);
    PendingIsCount(h, |h|, done, n, p);
    ArcCountIsCount(g, |g|, c, n, q);
    ArcCountIsCount(h, |h|, c, n, q);
    assert g[..|g|] == g && h[..|h|] == h;
    CountPermuted(g, h, p);
    CountPermuted(g, h, q);
  }

  /** c releases each node once, at the arc that uses up what the node was waiting for. */
  lemma {:induction false} ReleasedIff(g: seq<Arc>, done: set<Node>, c: Node, i: nat)
    requires i <= |g|
    ensures Distinct(Released(g, done, c, i))
    ensures forall n :: n in Released(g, done, c, i) <==> 1 <= Pending(g, |g|, done, n) <= ArcCount(g, i, c, n)
  {
    hide Pending;
    if i > 0 {
      ReleasedIff(g, done, c, i - 1);
    }
  }

  lemma ReleasedPermuted(g: seq<Arc>, h: seq<Arc>, done: set<Node>, c: Node)
    requires multiset(g) == multiset(h)
    ensures Sort(Released(g, done, c, |g|)) == Sort(Released(h, done, c, |h|))
  {
    hide Pending, ArcCount, Released, Sort;
    var r, t := Released(g, done, c, |g|), Released(h, done, c, |h|);
    ReleasedIff(g, done, c, |g|);
    ReleasedIff(h, done, c, |h|);
    forall n
      ensures n in r <==> n in t
    {
      CountsPermuted(g, h, done, c, n);
    }
    DistinctSameSet(r, t);
    SortedUnique(Sort(r), Sort(t));
  }

  lemma {:induction false} RunPermuted(g: seq<Arc>, h: seq<Arc>, nodes: set<Node>, done: seq<Node>, queue: seq<Node>)
    requires multiset(g) == multiset(h)
    ensures SortedRun(g, nodes, done, queue) == SortedRun(h, nodes, done, queue)
    decreases |nodes| - |done|
  {
    hide Released, Sort;
    if queue != [] && |done| < |nodes| {
      ReleasedPermuted(g, h, SeqSet(done), queue[0]);
      RunPermuted(g, h, nodes, done + [queue[0]], queue[1..] + Sort(Released(g, SeqSet(done), queue[0], |g|)));
    }
  }

  lemma GroundedPermuted(g: seq<Arc>, h: seq<Arc>, n: Node)
    requires multiset(g) == multiset(h) && Grounded(g, n)
    ensures Grounded(h, n)
  {
    forall w | IsWalk(h, w)
      ensures IsWalk(g, w)
    {
      forall i | 0 <= i < |w| - 1
        ensures HasArc(g, w[i], w[i + 1])
      {
        assert Arc(w[i], w[i + 1]) in multiset(h);
      }
    }
    forall c | Ancestor(h, c, c)
      ensures !Reaches(h, c, n)
    {
      var v :| WalkFromTo(h, v, c, c) && |v| >= 2;
      assert WalkFromTo(g, v, c, c) && Ancestor(g, c, c);
      if w :| WalkFromTo(h, w, c, n) {
        assert WalkFromTo(g, w, c, n) && Reaches(g, c, n);
      }
    }
  }

  /** Two listings of the same edges have the same seed, the same run and the same leftovers: for
      the agent's ordering neither the map order nor the edge order shows in the result. */
  lemma OrderIgnoresListing(g: seq<Arc>, h: seq<Arc>, nodes: set<Node>, s: seq<Node>, l: seq<Node>)
    requires multiset(g) == multiset(h)
    ensures IsSeed(g, nodes, s) <==> IsSeed(h, nodes, s)
    ensures IsLeftover(g, nodes, l) <==> IsLeftover(h, nodes, l)
    ensures SortedRun(g, nodes, [], s) == SortedRun(h, nodes, [], s)
  {
    hide Pending, Grounded, Sorted, Distinct, SortedRun;
    RunPermuted(g, h, nodes, [], s);
    forall n
      ensures Pending(g, |g|, {}, n) == Pending(h, |h|, {}, n) && (Grounded(g, n) <==> Grounded(h, n))
    {
      CountsPermuted(g, h, {}, n, n);
      if Grounded(g, n) {
        GroundedPermuted(g, h, n);
      }
      if Grounded(h, n) {
        GroundedPermuted(h, g, n);
      }
    }
  }
}
