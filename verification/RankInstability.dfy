/** How far a ranking of causes has moved from the previous one: half of one minus
    Spearman's rank correlation. */
module RankInstability {
  import opened Digraph
  import opened RealArith

  // ---------------------------------------------------------------------
  // Sums over lists

  ghost function SumOf<T>(s: seq<T>, g: T -> int): int {
    if s == [] then 0 else SumOf(s[..|s| - 1], g) + g(s[|s| - 1])
  }

  lemma {:induction false} SumWithout<T>(s: seq<T>, k: nat, g: T -> int)
    requires k < |s|
    ensures SumOf(s, g) == SumOf(s[..k] + s[k + 1..], g) + g(s[k])
  {
    var last := |s| - 1;
    if k == last {
      assert s[..k] + s[k + 1..] == s[..last];
    } else {
      SumWithout(s[..last], k, g);
      var t := s[..k] + s[k + 1..];
      assert t[..|t| - 1] == s[..last][..k] + s[..last][k + 1..];
    }
  }

  /** A sum does not depend on the order of the list. */
  lemma {:induction false} SumOfPermutation<T>(a: seq<T>, b: seq<T>, g: T -> int)
    requires Distinct(a) && Distinct(b) && SeqSet(a) == SeqSet(b)
    ensures SumOf(a, g) == SumOf(b, g)
    decreases |a|
  {
    DistinctCard(a);
    DistinctCard(b);
    if a != [] {
      var x := a[|a| - 1];
      assert x in SeqSet(a);
      var k :| 0 <= k < |b| && b[k] == x;
      var a', b' := a[..|a| - 1], b[..k] + b[k + 1..];
      SumWithout(b, k, g);
      SetWithout(a, |a| - 1);
      SetWithout(b, k);
      assert a[..|a| - 1] + a[|a| - 1 + 1..] == a';
      SumOfPermutation(a', b', g);
    }
  }

  lemma SetWithout<T>(s: seq<T>, k: nat)
    requires k < |s| && Distinct(s)
    ensures Distinct(s[..k] + s[k + 1..]) && SeqSet(s[..k] + s[k + 1..]) == SeqSet(s) - {s[k]}
  {
    var t := s[..k] + s[k + 1..];
    forall x | x in SeqSet(s) - {s[k]}
      ensures x in SeqSet(t)
    {
      var i :| 0 <= i < |s| && s[i] == x;
      assert t[if i < k then i else i - 1] == x;
    }
  }

  ghost function Upto(n: nat): (r: seq<int>)
    ensures |r| == n && Distinct(r) && forall i :: 0 <= i < n ==> r[i] == i
  {
    seq(n, i => i)
  }

  ghost function Identity(x: int): int {
    x
  }

  ghost function Square(x: int): (r: int)
    ensures r >= 0
  {
    x * x
  }

  lemma {:induction false} SumsUpto(n: nat)
    ensures 2 * SumOf(Upto(n), Identity) == n * (n - 1)
    ensures 6 * SumOf(Upto(n), Square) == n * (n - 1) * (2 * n - 1)
  {
    hide Identity, Square;
    if n > 0 {
      SumsUpto(n - 1);
      assert Upto(n)[..n - 1] == Upto(n - 1);
      NextTerms(n);
    }
  }

  lemma NextTerms(n: int)
    ensures (n - 1) * (n - 2) + 2 * Identity(n - 1) == n * (n - 1)
    ensures (n - 1) * (n - 2) * (2 * (n - 1) - 1) + 6 * Square(n - 1) == n * (n - 1) * (2 * n - 1)
  {
  }

  // ---------------------------------------------------------------------
  // Permutations of positions

  ghost predicate Permutation(p: seq<int>) {
    Distinct(p) && forall i :: 0 <= i < |p| ==> 0 <= p[i] < |p|
  }

  lemma PermutationSums(p: seq<int>)
    requires Permutation(p)
    ensures SumOf(p, Identity) == SumOf(Upto(|p|), Identity)
    ensures SumOf(p, Square) == SumOf(Upto(|p|), Square)
  {
    var all := Upto(|p|);
    DistinctCard(p);
    DistinctCard(all);
    assert SeqSet(p) <= SeqSet(all) by {
      forall x | x in SeqSet(p)
        ensures x in SeqSet(all)
      {
        assert all[x] == x;
      }
    }
    SubsetFull(SeqSet(p), SeqSet(all));
    SumOfPermutation(p, all, Identity);
    SumOfPermutation(p, all, Square);
  }

  lemma SubsetFull<T>(a: set<T>, b: set<T>)
    requires a <= b && |a| == |b|
    ensures a == b
  {
    assert b == a + (b - a);
  }

  /** Squared distance of the first k positions from where they were. */
  ghost function Displacement(p: seq<int>, k: nat): (r: nat)
    requires k <= |p|
  {
    if k == 0 then 0 else Displacement(p, k - 1) + Square(k - 1 - p[k - 1])
  }

  /** Squared distance of the first k positions from the mirror image. */
  ghost function MirrorDistance(p: seq<int>, k: nat): (r: nat)
    requires k <= |p|
  {
    if k == 0 then 0 else MirrorDistance(p, k - 1) + Square(k - 1 + p[k - 1] - (|p| - 1))
  }

  lemma {:induction false} PrefixBalance(p: seq<int>, k: nat)
    requires k <= |p|
    ensures Displacement(p, k) + MirrorDistance(p, k)
         == 2 * SumOf(Upto(k), Square) + 2 * SumOf(p[..k], Square) + k * Square(|p| - 1)
            - 2 * (|p| - 1) * (SumOf(Upto(k), Identity) + SumOf(p[..k], Identity))
  {
    if k > 0 {
      var m := |p| - 1;
      PrefixBalance(p, k - 1);
      assert Upto(k)[..k - 1] == Upto(k - 1) && p[..k][..k - 1] == p[..k - 1];
      TwoSquares(k - 1, p[k - 1], m);
      hide Square;
      Regroup(m, SumOf(Upto(k - 1), Identity) + SumOf(p[..k - 1], Identity), k - 1 + p[k - 1]);
      Regroup(k - 1, Square(m), 0);
    }
  }

  lemma Regroup(m: int, a: int, b: int)
    ensures 2 * m * (a + b) == 2 * m * a + 2 * m * b && (m + 1) * a == m * a + a
  {
  }

  lemma BalanceAlgebra(n: int, u1: int, q1: int, u2: int, q2: int, total: int)
    requires total == 2 * u2 + 2 * q2 + n * Square(n - 1) - 2 * (n - 1) * (u1 + q1)
    requires u1 == q1 && 2 * u1 == n * (n - 1) && u2 == q2 && 6 * u2 == n * (n - 1) * (2 * n - 1)
    ensures 3 * total == n * (n * n - 1)
  {
    assert 2 * (n - 1) * (2 * u1) == 2 * (n - 1) * (n * (n - 1));
  }

  lemma SquareDifference(a: int, b: int)
    ensures Square(a - b) == Square(a) - 2 * (a * b) + Square(b)
  {
  }

  lemma TwoSquares(i: int, x: int, m: int)
    ensures Square(i - x) + Square(i + x - m) == 2 * Square(i) + 2 * Square(x) + Square(m) - 2 * m * (i + x)
  {
    SquareDifference(i, x);
    SquareDifference(i + x, m);
    assert Square(i + x) == Square(i) + 2 * (i * x) + Square(x);
    hide Square;
    assert 2 * ((i + x) * m) == 2 * m * (i + x);
  }

  /** The two distances of a permutation always add up to the same number. */
  lemma Balance(p: seq<int>)
    requires Permutation(p)
    ensures 3 * (Displacement(p, |p|) + MirrorDistance(p, |p|)) == |p| * (|p| * |p| - 1)
  {
    hide SumOf, Square, Identity, Permutation, Displacement, MirrorDistance, Upto;
    var n := |p|;
    PrefixBalance(p, n);
    assert p[..n] == p;
    PermutationSums(p);
    SumsUpto(n);
    BalanceAlgebra(n, SumOf(Upto(n), Identity), SumOf(p, Identity), SumOf(Upto(n), Square), SumOf(p, Square),
                   Displacement(p, n) + MirrorDistance(p, n));
  }

  lemma SquareZero(x: int)
    ensures Square(x) == 0 <==> x == 0
    ensures Square(x) >= 0
  {
  }

  lemma {:induction false} NoDisplacement(p: seq<int>, k: nat)
    requires k <= |p|
    ensures Displacement(p, k) == 0 <==> forall i :: 0 <= i < k ==> p[i] == i
  {
    hide Square;
    if k > 0 {
      NoDisplacement(p, k - 1);
      SquareZero(k - 1 - p[k - 1]);
    }
  }

  lemma {:induction false} NoMirrorDistance(p: seq<int>, k: nat)
    requires k <= |p|
    ensures MirrorDistance(p, k) == 0 <==> forall i :: 0 <= i < k ==> p[i] == |p| - 1 - i
  {
    hide Square;
    if k > 0 {
      NoMirrorDistance(p, k - 1);
      SquareZero(k - 1 + p[k - 1] - (|p| - 1));
    }
  }

  // ---------------------------------------------------------------------
  // The instability of a ranking

  /** The last position of id, as the map of previous ranks records it. */
  ghost function Rank(s: seq<Node>, id: Node): (r: int)
    ensures id in s ==> 0 <= r < |s| && s[r] == id
  {
    if s == [] then -1
    else if s[|s| - 1] == id then |s| - 1
    else Rank(s[..|s| - 1], id)
  }

  ghost function Ranks(current: seq<Node>, prev: seq<Node>): (r: seq<int>)
    ensures |r| == |current| && forall i :: 0 <= i < |current| ==> r[i] == Rank(prev, current[i])
  {
    seq(|current|, i requires 0 <= i < |current| => Rank(prev, current[i]))
  }

  ghost predicate SomeNew(current: seq<Node>, prev: seq<Node>) {
    exists i :: 0 <= i < |current| && current[i] !in prev
  }

  function Clamp(x: real): real {
    if x < 0.0 then 0.0 else if x > 1.0 then 1.0 else x
  }

  /** The value before clamping, from the sum of squared rank differences. */
  function Unclamped(sumD2: real, n: int): real
    requires n >= 2
  {
    NCubed(n);
    (1.0 - (1.0 - (6.0 * sumD2) / (n * (n * n - 1)) as real)) / 2.0
  }

  lemma NCubed(n: int)
    requires n >= 2
    ensures n * (n * n - 1) > 0
  {
  }

  ghost function Instability(current: seq<Node>, prev: seq<Node>): real {
    if |prev| == 0 then 0.0
    else if |current| != |prev| then 1.0
    else if |current| == 1 then if current == prev then 0.0 else 1.0
    else if SomeNew(current, prev) then 1.0
    else Clamp(Unclamped(Displacement(Ranks(current, prev), |current|) as real, |current|))
  }

  /** The map of previous ranks: a repeated id keeps its last position. */
  method PreviousRanks(prev: seq<Node>) returns (prevRank: map<Node, int>)
    ensures forall id :: id in prevRank <==> id in prev
    ensures forall id :: id in prevRank ==> prevRank[id] == Rank(prev, id)
  {
    prevRank := map[];
    for i := 0 to |prev|
      invariant forall id :: id in prevRank <==> id in prev[..i]
      invariant forall id :: id in prevRank ==> prevRank[id] == Rank(prev[..i], id)
    {
      prevRank := prevRank[prev[i] := i];
      assert prev[..i + 1][..i] == prev[..i];
    }
    assert prev[..|prev|] == prev;
  }

  method ComputeInstability(current: seq<Node>, prev: seq<Node>) returns (instability: real)
    ensures instability == Instability(current, prev)
  {
    if |prev| == 0 {
      return 0.0;
    }
    if |current| != |prev| {
      return 1.0;
    }
    var n := |current|;
    if n == 1 {
      if current[0] == prev[0] {
        return 0.0;
      }
      return 1.0;
    }
    var prevRank := PreviousRanks(prev);
    hide Rank, Displacement, Unclamped, Clamp, Square;
    ghost var ranks := Ranks(current, prev);
    NoneDisplaced(ranks);
    var sumD2 := 0.0;
    for i := 0 to |current|
      invariant forall j :: 0 <= j < i ==> current[j] in prev
      invariant sumD2 == Displacement(ranks, i) as real
    {
      var id := current[i];
      if id !in prevRank {
        return 1.0;
      }
      var d := i - prevRank[id];
      SquareAsReal(d);
      DisplacedNext(ranks, i);
      sumD2 := sumD2 + d as real * d as real;
    }
    return Clamp(Unclamped(sumD2, n));
  }

  lemma NoneDisplaced(p: seq<int>)
    ensures Displacement(p, 0) == 0
  {
  }

  lemma DisplacedNext(p: seq<int>, i: nat)
    requires i < |p|
    ensures Displacement(p, i + 1) == Displacement(p, i) + Square(i - p[i])
  {
  }

  lemma SquareAsReal(d: int)
    ensures d as real * d as real == Square(d) as real
  {
  }

  // ---------------------------------------------------------------------
  // What it measures

  ghost predicate SameMembers(a: seq<Node>, b: seq<Node>) {
    Distinct(a) && Distinct(b) && SeqSet(a) == SeqSet(b)
  }

  /** A repeated member is ranked where it stands last. */
  lemma {:induction false} RankIsLast(s: seq<Node>, id: Node, k: nat)
    requires k < |s| && s[k] == id
    ensures k <= Rank(s, id)
  {
    if k < |s| - 1 {
      RankIsLast(s[..|s| - 1], id, k);
    }
  }

  lemma {:induction false} RankAt(s: seq<Node>, i: nat)
    requires Distinct(s) && i < |s|
    ensures Rank(s, s[i]) == i
  {
  }

  lemma RanksPermutation(current: seq<Node>, prev: seq<Node>)
    requires SameMembers(current, prev)
    ensures |current| == |prev| && Permutation(Ranks(current, prev)) && !SomeNew(current, prev)
  {
    DistinctCard(current);
    DistinctCard(prev);
    var p := Ranks(current, prev);
    forall i | 0 <= i < |current|
      ensures current[i] in prev && 0 <= p[i] < |prev| && prev[p[i]] == current[i]
    {
      assert current[i] in SeqSet(prev);
    }
  }

  /** Either a member is new, or two duplicate-free lists of one length have the same members. */
  lemma SomeNewIff(current: seq<Node>, prev: seq<Node>)
    requires Distinct(current) && Distinct(prev) && |current| == |prev|
    ensures SomeNew(current, prev) <==> SeqSet(current) != SeqSet(prev)
  {
    DistinctCard(current);
    DistinctCard(prev);
    if !SomeNew(current, prev) {
      SubsetFull(SeqSet(current), SeqSet(prev));
    } else {
      var i :| 0 <= i < |current| && current[i] !in prev;
      assert current[i] in SeqSet(current) && current[i] !in SeqSet(prev);
    }
  }

  lemma UnclampedBounds(d: nat, n: int)
    requires n >= 2 && 3 * d <= n * (n * n - 1)
    ensures 0.0 <= Unclamped(d as real, n) <= 1.0
    ensures Unclamped(d as real, n) == 0.0 <==> d == 0
    ensures Unclamped(d as real, n) == 1.0 <==> 3 * d == n * (n * n - 1)
  {
    NCubed(n);
    var m := (n * (n * n - 1)) as real;
    var q := (6.0 * d as real) / m;
    assert Times(m, q) == 6.0 * d as real;
    assert Unclamped(d as real, n) == q / 2.0;
    TimesUnits(m);
    assert Times(m, 2.0) == 2.0 * m;
    CancelFactor(m, 0.0, q);
    CancelFactor(m, q, 2.0);
    if d == 0 {
      CancelFactor(m, q, 0.0);
    }
    if 3 * d == n * (n * n - 1) {
      CancelFactor(m, 2.0, q);
    }
  }

  lemma PermutationBounds(p: seq<int>)
    requires Permutation(p) && |p| >= 2
    ensures 0.0 <= Unclamped(Displacement(p, |p|) as real, |p|) <= 1.0
    ensures Unclamped(Displacement(p, |p|) as real, |p|) == 0.0 <==> forall i :: 0 <= i < |p| ==> p[i] == i
    ensures Unclamped(Displacement(p, |p|) as real, |p|) == 1.0 <==> forall i :: 0 <= i < |p| ==> p[i] == |p| - 1 - i
  {
    hide Displacement, MirrorDistance, Unclamped, Permutation;
    Balance(p);
    UnclampedBounds(Displacement(p, |p|), |p|);
    NoDisplacement(p, |p|);
    NoMirrorDistance(p, |p|);
  }

  /** On two orders of the same members the clamp never acts. */
  lemma ClampNeverActs(current: seq<Node>, prev: seq<Node>)
    requires SameMembers(current, prev) && |prev| >= 2
    ensures |current| == |prev|
    ensures Instability(current, prev) == Unclamped(Displacement(Ranks(current, prev), |current|) as real, |prev|)
    ensures Instability(current, prev) == 0.0 <==> current == prev
    ensures Instability(current, prev) == 1.0 <==> current == Reversed(prev)
  {
    hide Displacement, Unclamped, SomeNew, Permutation, SameMembers, Reversed, Rank, Ranks;
    var p := Ranks(current, prev);
    RanksPermutation(current, prev);
    PermutationBounds(p);
    RanksInPlace(current, prev);
  }

  /** Ranks that stand still mean the same list; ranks that run backwards mean its reverse. */
  lemma RanksInPlace(current: seq<Node>, prev: seq<Node>)
    requires SameMembers(current, prev) && |current| == |prev|
    ensures current == prev <==> forall i :: 0 <= i < |current| ==> Ranks(current, prev)[i] == i
    ensures current == Reversed(prev) <==> forall i :: 0 <= i < |current| ==> Ranks(current, prev)[i] == |prev| - 1 - i
  {
    hide Rank, SameMembers, Reversed;
    var p, n, rev := Ranks(current, prev), |prev|, Reversed(prev);
    forall i | 0 <= i < n
      ensures (p[i] == i <==> current[i] == prev[i]) && (p[i] == n - 1 - i <==> current[i] == rev[i])
    {
      MemberOf(current, prev, i);
      RankIs(prev, current[i], i);
      RankIs(prev, current[i], n - 1 - i);
    }
    EqualIff(current, prev);
    EqualIff(current, rev);
  }

  lemma MemberOf(current: seq<Node>, prev: seq<Node>, i: nat)
    requires SameMembers(current, prev) && i < |current|
    ensures Distinct(prev) && current[i] in prev
  {
    assert current[i] in SeqSet(prev);
  }

  lemma EqualIff<T>(a: seq<T>, b: seq<T>)
    requires |a| == |b|
    ensures a == b <==> forall i :: 0 <= i < |a| ==> a[i] == b[i]
  {
  }

  lemma RankIs(s: seq<Node>, id: Node, j: nat)
    requires Distinct(s) && id in s && j < |s|
    ensures Rank(s, id) == j <==> id == s[j]
  {
    RankAt(s, j);
  }

  /** Without duplicates, zero means the same ranking. */
  lemma ZeroIff(current: seq<Node>, prev: seq<Node>)
    requires Distinct(current) && Distinct(prev) && prev != []
    ensures Instability(current, prev) == 0.0 <==> current == prev
  {
    if |current| == |prev| >= 2 {
      SomeNewIff(current, prev);
      if SeqSet(current) == SeqSet(prev) {
        ClampNeverActs(current, prev);
      }
    }
  }

  /** Without duplicates, one means another membership or the exact reverse. */
  lemma OneIff(current: seq<Node>, prev: seq<Node>)
    requires Distinct(current) && Distinct(prev) && prev != []
    ensures Instability(current, prev) == 1.0 <==>
              SeqSet(current) != SeqSet(prev) || (|prev| >= 2 && current == Reversed(prev))
  {
    DistinctCard(current);
    DistinctCard(prev);
    if |current| == |prev| {
      SomeNewIff(current, prev);
      if |prev| == 1 {
        assert current[0] in SeqSet(current) && prev[0] in SeqSet(prev);
      } else if SeqSet(current) == SeqSet(prev) {
        ClampNeverActs(current, prev);
      }
    }
  }

  /** The squared rank difference of one member. */
  ghost function Moved(a: seq<Node>, b: seq<Node>, id: Node): int {
    Square(Rank(a, id) - Rank(b, id))
  }

  lemma DisplacedPrefix(p: seq<int>, k: nat)
    requires k <= |p|
    ensures Displacement(p, k) == if k == 0 then 0 else Displacement(p, k - 1) + Square(k - 1 - p[k - 1])
  {
  }

  lemma {:induction false} DisplacementByMember(current: seq<Node>, prev: seq<Node>, k: nat)
    requires Distinct(current) && k <= |current|
    ensures Displacement(Ranks(current, prev), k) == SumOf(current[..k], id => Moved(current, prev, id))
  {
    hide Rank, Displacement;
    DisplacedPrefix(Ranks(current, prev), k);
    if k > 0 {
      DisplacementByMember(current, prev, k - 1);
      assert current[..k][..k - 1] == current[..k - 1];
      RankAt(current, k - 1);
    }
  }

  lemma {:induction false} SumsEqual<T>(s: seq<T>, g: T -> int, h: T -> int)
    requires forall x :: x in s ==> g(x) == h(x)
    ensures SumOf(s, g) == SumOf(s, h)
  {
    if s != [] {
      SumsEqual(s[..|s| - 1], g, h);
    }
  }

  lemma DisplacementSymmetric(a: seq<Node>, b: seq<Node>)
    requires SameMembers(a, b)
    ensures |a| == |b| && Displacement(Ranks(a, b), |a|) == Displacement(Ranks(b, a), |b|)
  {
    DistinctCard(a);
    DistinctCard(b);
    var g, h := (id: Node) => Moved(a, b, id), (id: Node) => Moved(b, a, id);
    DisplacementByMember(a, b, |a|);
    DisplacementByMember(b, a, |b|);
    assert a[..|a|] == a && b[..|b|] == b;
    SumOfPermutation(a, b, g);
    SumsEqual(b, g, h);
  }

  /** Without duplicates the measure is symmetric, unless exactly one ranking is empty. */
  lemma SymmetricIff(current: seq<Node>, prev: seq<Node>)
    requires Distinct(current) && Distinct(prev)
    ensures Instability(current, prev) == Instability(prev, current) <==> (current == [] <==> prev == [])
  {
    if |current| == |prev| >= 2 {
      SomeNewIff(current, prev);
      SomeNewIff(prev, current);
      if SeqSet(current) == SeqSet(prev) {
        DisplacementSymmetric(current, prev);
      }
    }
  }

  // ---------------------------------------------------------------------
  // Repeated members

  /** On all rankings of length n without new members, repeated ones included, the clamp is idle. */
  ghost predicate ClampIdle(n: nat)
    requires n >= 2
  {
    forall current: seq<Node>, prev: seq<Node> :: |current| == |prev| == n && !SomeNew(current, prev) ==>
      0.0 <= Unclamped(Displacement(Ranks(current, prev), n) as real, n) <= 1.0
  }

  /** Two ranks are each 0 or 1. */
  lemma TwoInRange(current: seq<Node>, prev: seq<Node>)
    requires |current| == |prev| == 2 && !SomeNew(current, prev)
    ensures 0.0 <= Unclamped(Displacement(Ranks(current, prev), 2) as real, 2) <= 1.0
  {
    hide Unclamped;
    var p := Ranks(current, prev);
    assert current[0] in prev && current[1] in prev;
    assert Displacement(p, 1) == Displacement(p, 0) + Square(0 - p[0]);
    assert Displacement(p, 2) == Displacement(p, 1) + Square(1 - p[1]);
    UnclampedBounds(Displacement(p, 2), 2);
  }

  lemma {:induction false} OneRankChanged(p: seq<int>, k: nat, x: int, m: nat)
    requires k < |p| && m <= |p|
    ensures Displacement(p[k := x], m) == Displacement(p, m) + if k < m then Square(k - x) - Square(k - p[k]) else 0
  {
    hide Square;
    if m > 0 {
      OneRankChanged(p, k, x, m - 1);
    }
  }

  /** Names of increasing length, so that no two are equal. */
  ghost function Names(n: nat): (r: seq<Node>)
    ensures |r| == n && Distinct(r)
  {
    var r: seq<Node> := seq(n, i requires 0 <= i => seq(i, _ => 'a'));
    assert forall i :: 0 <= i < n ==> |r[i]| == i;
    r
  }

  /** The reverse of a ranking with its second entry replaced by its first. */
  ghost function Doubled(prev: seq<Node>): (r: seq<Node>)
    requires |prev| >= 2
    ensures |r| == |prev|
  {
    Reversed(prev)[1 := prev[|prev| - 1]]
  }

  lemma ReversedRanks(prev: seq<Node>)
    requires Distinct(prev)
    ensures var p := Ranks(Reversed(prev), prev);
            Permutation(p) && forall i :: 0 <= i < |prev| ==> p[i] == |prev| - 1 - i
  {
    forall i | 0 <= i < |prev|
      ensures Rank(prev, Reversed(prev)[i]) == |prev| - 1 - i
    {
      RankAt(prev, |prev| - 1 - i);
    }
  }

  lemma DoubledRanks(prev: seq<Node>)
    requires Distinct(prev) && |prev| >= 2
    ensures !SomeNew(Doubled(prev), prev)
    ensures Ranks(Doubled(prev), prev) == Ranks(Reversed(prev), prev)[1 := |prev| - 1]
  {
    hide Rank;
    var n := |prev|;
    RankAt(prev, n - 1);
    forall i | 0 <= i < n
      ensures Doubled(prev)[i] in prev
    {
      assert Doubled(prev)[i] == prev[if i == 1 then n - 1 else n - 1 - i];
    }
  }

  lemma MirrorDisplacement(p: seq<int>)
    requires Permutation(p) && forall i :: 0 <= i < |p| ==> p[i] == |p| - 1 - i
    ensures 3 * Displacement(p, |p|) == |p| * (|p| * |p| - 1)
  {
    hide Displacement, MirrorDistance, Permutation;
    Balance(p);
    NoMirrorDistance(p, |p|);
  }

  lemma SquareGap(n: int)
    ensures Square(1 - (n - 1)) - Square(1 - (n - 2)) == 2 * n - 5
  {
  }

  /** It passes the largest displacement of a permutation by 2 n - 5. */
  lemma DoubledPassesOne(prev: seq<Node>)
    requires Distinct(prev) && |prev| >= 3
    ensures !SomeNew(Doubled(prev), prev)
    ensures Unclamped(Displacement(Ranks(Doubled(prev), prev), |prev|) as real, |prev|) > 1.0
  {
    hide *;
    var n := |prev|;
    var p := Ranks(Reversed(prev), prev);
    ReversedRanks(prev);
    DoubledRanks(prev);
    OneRankChanged(p, 1, n - 1, n);
    MirrorDisplacement(p);
    SquareGap(n);
    UnclampedAbove(Displacement(p[1 := n - 1], n), n);
  }

  lemma UnclampedAbove(d: nat, n: int)
    requires n >= 2 && 3 * d > n * (n * n - 1)
    ensures Unclamped(d as real, n) > 1.0
  {
    NCubed(n);
    var m := (n * (n * n - 1)) as real;
    var q := (6.0 * d as real) / m;
    assert Times(m, q) == 6.0 * d as real;
    assert Unclamped(d as real, n) == q / 2.0;
    assert Times(m, 2.0) == 2.0 * m;
    if q <= 2.0 {
      MulMonotone(q, 2.0, m);
    }
  }

  /** With repeated members allowed, the clamp is idle on all rankings of one length exactly when
      that length is two. */
  lemma ClampIdleIff(n: nat)
    requires n >= 2
    ensures ClampIdle(n) <==> n == 2
  {
    if n == 2 {
      forall current: seq<Node>, prev: seq<Node> | |current| == |prev| == n && !SomeNew(current, prev)
        ensures 0.0 <= Unclamped(Displacement(Ranks(current, prev), n) as real, n) <= 1.0
      {
        TwoInRange(current, prev);
      }
    } else {
      DoubledPassesOne(Names(n));
    }
  }

  /** With a repeated member the value can pass one, and the clamp hides it. */
  lemma DuplicatesPassOne()
    ensures var current, prev := ["c", "c", "a"], ["a", "b", "c"];
            && Unclamped(Displacement(Ranks(current, prev), 3) as real, 3) == 1.125
            && Instability(current, prev) == 1.0 && current != Reversed(prev)
  {
    var current, prev := ["c", "c", "a"], ["a", "b", "c"];
    var p := Ranks(current, prev);
    RankAt(prev, 0);
    RankAt(prev, 2);
    assert p == [2, 2, 0];
    assert Displacement(p, 1) == 4 && Displacement(p, 2) == 5 && Displacement(p, 3) == 9;
    assert Reversed(prev)[1] == "b";
  }
}
