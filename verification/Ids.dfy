/** Node identifiers in lexicographic order, and sorting them. */
module Ids {
  import opened Digraph

  predicate Less(a: Node, b: Node) {
    b != [] && (a == [] || a[0] < b[0] || (a[0] == b[0] && Less(a[1..], b[1..])))
  }

  lemma {:induction false} LessTrans(a: Node, b: Node, c: Node)
    requires Less(a, b) && Less(b, c)
    ensures Less(a, c)
    decreases |a|
  {
    if a != [] && a[0] == b[0] == c[0] {
      LessTrans(a[1..], b[1..], c[1..]);
    }
  }

  lemma {:induction false} LessTotal(a: Node, b: Node)
    ensures Less(a, b) || a == b || Less(b, a)
    ensures !(Less(a, b) && Less(b, a))
    decreases |a|
  {
    if a != [] && b != [] && a[0] == b[0] {
      LessTotal(a[1..], b[1..]);
      assert a == [a[0]] + a[1..] && b == [b[0]] + b[1..];
    }
  }

  /** A proper prefix comes first ... */
  lemma {:induction false} PrefixLess(a: Node, b: Node)
    requires a < b
    ensures Less(a, b)
    decreases |a|
  {
    if a != [] {
      assert a[0] == b[0] && a[1..] < b[1..];
      PrefixLess(a[1..], b[1..]);
    }
  }

  /** ... and otherwise the first character in which two names differ decides. */
  lemma {:induction false} FirstDifference(a: Node, b: Node, k: nat)
    requires k < |a| && k < |b| && a[..k] == b[..k] && a[k] != b[k]
    ensures Less(a, b) <==> a[k] < b[k]
    decreases k
  {
    if k > 0 {
      assert a[..k][0] == b[..k][0] && a[1..][..k - 1] == a[..k][1..] && b[1..][..k - 1] == b[..k][1..];
      FirstDifference(a[1..], b[1..], k - 1);
    }
  }

  ghost predicate Sorted(s: seq<Node>) {
    forall i, j :: 0 <= i < j < |s| ==> !Less(s[j], s[i])
  }

  /** !Less(b, a) is transitive. */
  lemma NotLessTrans(a: Node, b: Node, c: Node)
    requires !Less(b, a) && !Less(c, b)
    ensures !Less(c, a)
  {
    LessTotal(a, b);
    LessTotal(b, c);
    if Less(c, a) {
      if b != a {
        LessTrans(c, a, b);
      }
    }
  }

  /** A sorted sequence is determined by its elements. */
  lemma {:induction false} SortedUnique(s: seq<Node>, t: seq<Node>)
    requires Sorted(s) && Sorted(t) && multiset(s) == multiset(t)
    ensures s == t
    decreases |s|
  {
    assert |s| == |multiset(s)| == |multiset(t)| == |t|;
    if s != [] {
      FirstIsLeast(s, t);
      FirstIsLeast(t, s);
      LessTotal(s[0], t[0]);
      assert s == [s[0]] + s[1..] && t == [t[0]] + t[1..];
      assert multiset(s[1..]) == multiset(s) - multiset{s[0]};
      assert multiset(t[1..]) == multiset(t) - multiset{t[0]};
      SortedUnique(s[1..], t[1..]);
    }
  }

  lemma FirstIsLeast(s: seq<Node>, t: seq<Node>)
    requires Sorted(s) && s != [] && t != [] && multiset(s) == multiset(t)
    ensures !Less(t[0], s[0])
  {
    assert t[0] in multiset(t);
    assert t[0] in s;
    var k :| 0 <= k < |s| && s[k] == t[0];
    LessTotal(s[0], s[0]);
  }

  /** Insertion of the last element into a sorted sequence. */
  ghost function Insert(s: seq<Node>, x: Node): (r: seq<Node>)
    ensures multiset(r) == multiset(s) + multiset{x}
    ensures Sorted(s) ==> Sorted(r)
    decreases |s|
  {
    if s == [] || !Less(x, s[|s| - 1]) then
      SortedAppend(s, x);
      s + [x]
    else
      var init := s[..|s| - 1];
      var r := Insert(init, x);
      assert s == init + [s[|s| - 1]];
      PlacedBefore(init, x, s[|s| - 1], r);
      r + [s[|s| - 1]]
  }

  lemma SortedAppend(s: seq<Node>, x: Node)
    ensures Sorted(s) && (s == [] || !Less(x, s[|s| - 1])) ==> Sorted(s + [x])
  {
    if Sorted(s) && s != [] && !Less(x, s[|s| - 1]) {
      forall i | 0 <= i < |s|
        ensures !Less(x, s[i])
      {
        if i < |s| - 1 {
          NotLessTrans(s[i], s[|s| - 1], x);
        }
      }
    }
  }

  lemma PlacedBefore(s: seq<Node>, x: Node, last: Node, r: seq<Node>)
    requires Less(x, last) && multiset(r) == multiset(s) + multiset{x} && (Sorted(s) ==> Sorted(r))
    ensures Sorted(s + [last]) ==> Sorted(r + [last])
  {
    if Sorted(s + [last]) {
      forall i, j | 0 <= i < j < |s|
        ensures !Less(s[j], s[i])
      {
        assert (s + [last])[i] == s[i] && (s + [last])[j] == s[j];
      }
      forall i | 0 <= i < |r|
        ensures !Less(last, r[i])
      {
        assert r[i] in multiset(r);
        if r[i] == x {
          LessTotal(x, last);
        } else {
          assert r[i] in multiset(s);
          var k :| 0 <= k < |s| && s[k] == r[i];
          assert (s + [last])[k] == r[i] && (s + [last])[|s|] == last;
        }
      }
    }
  }

  ghost function Sort(s: seq<Node>): (r: seq<Node>)
    ensures Sorted(r) && multiset(r) == multiset(s)
  {
    if s == [] then []
    else
      assert s == s[..|s| - 1] + [s[|s| - 1]];
      Insert(Sort(s[..|s| - 1]), s[|s| - 1])
  }

  lemma SortedFixed(s: seq<Node>)
    requires Sorted(s)
    ensures Sort(s) == s
  {
    SortedUnique(Sort(s), s);
  }

  lemma SameElements(s: seq<Node>, t: seq<Node>)
    requires multiset(s) == multiset(t)
    ensures |s| == |t| && forall x :: x in s <==> x in t
  {
    assert |s| == |multiset(s)| == |multiset(t)| == |t|;
    forall x
      ensures x in s <==> x in t
    {
      assert x in s <==> x in multiset(s);
      assert x in t <==> x in multiset(t);
    }
  }

  /** Insertion sort by adjacent exchanges, in place. */
  method SortNodesByID(nodes: array<Node>)
    modifies nodes
    ensures nodes[..] == Sort(old(nodes[..]))
  {
    for i := 0 to nodes.Length
      invariant multiset(nodes[..]) == multiset(old(nodes[..]))
      invariant Sorted(nodes[..i])
    {
      SinkIntoPlace(nodes, i);
    }
    assert nodes[..nodes.Length] == nodes[..];
    SortedUnique(nodes[..], Sort(old(nodes[..])));
  }

  /** Up to index i everything but element j is in order, and element j is smaller
      than everything after it. */
  ghost predicate Sinking(s: seq<Node>, i: nat, j: nat) {
    && j <= i < |s|
    && (forall p, q :: 0 <= p < q <= i && p != j && q != j ==> !Less(s[q], s[p]))
    && (forall q :: j < q <= i ==> Less(s[j], s[q]))
  }

  lemma SinkStep(s: seq<Node>, t: seq<Node>, i: nat, j: nat)
    requires Sinking(s, i, j) && j > 0 && Less(s[j], s[j - 1]) && t == s[j := s[j - 1]][j - 1 := s[j]]
    ensures Sinking(t, i, j - 1) && multiset(t) == multiset(s)
  {
  }

  lemma SinkDone(s: seq<Node>, i: nat, j: nat)
    requires Sinking(s, i, j) && (j == 0 || !Less(s[j], s[j - 1]))
    ensures Sorted(s[..i + 1])
  {
    forall p, q | 0 <= p < q <= i
      ensures !Less(s[q], s[p])
    {
      if p == j {
        LessTotal(s[p], s[q]);
      } else if q == j && p < j - 1 {
        NotLessTrans(s[p], s[j - 1], s[j]);
      }
    }
  }

  /** The inner loop: move element i down past every larger one. */
  method SinkIntoPlace(nodes: array<Node>, i: nat)
    requires i < nodes.Length && Sorted(nodes[..i])
    modifies nodes
    ensures multiset(nodes[..]) == multiset(old(nodes[..]))
    ensures Sorted(nodes[..i + 1])
  {
    var j := i;
    SinkStart(nodes[..], i);
    while j > 0 && Less(nodes[j], nodes[j - 1])
      invariant 0 <= j <= i
      invariant multiset(nodes[..]) == multiset(old(nodes[..]))
      invariant Sinking(nodes[..], i, j)
    {
      ghost var before := nodes[..];
      nodes[j], nodes[j - 1] := nodes[j - 1], nodes[j];
      SinkStep(before, nodes[..], i, j);
      j := j - 1;
    }
    SinkDone(nodes[..], i, j);
    assert nodes[..][..i + 1] == nodes[..i + 1];
  }

  lemma SinkStart(s: seq<Node>, i: nat)
    requires i < |s| && Sorted(s[..i])
    ensures Sinking(s, i, i)
  {
    forall p, q | 0 <= p < q < i
      ensures !Less(s[q], s[p])
    {
      assert s[..i][p] == s[p] && s[..i][q] == s[q];
    }
  }
}
