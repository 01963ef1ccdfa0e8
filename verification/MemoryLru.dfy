/** The bounded in-memory cache: a recency list with an index, and what a run of calls on it
    keeps. */
module MemoryLru {
  import opened Digraph

  type Key = string

  datatype Option<V> = None | Some(value: V)

  datatype Entry<V> = Entry(key: Key, value: V)

  // ---------------------------------------------------------------------
  // The recency list as a value, most recently used first

  ghost function Without<V>(s: seq<Entry<V>>, k: Key): seq<Entry<V>> {
    if s == [] then []
    else if s[0].key == k then Without(s[1..], k)
    else [s[0]] + Without(s[1..], k)
  }

  ghost function Lookup<V>(s: seq<Entry<V>>, k: Key): Option<V> {
    if s == [] then None
    else if s[0].key == k then Some(s[0].value)
    else Lookup(s[1..], k)
  }

  /** No key is listed twice. */
  ghost predicate KeyedOnce<V>(s: seq<Entry<V>>) {
    s != [] ==> Lookup(s[1..], s[0].key).None? && KeyedOnce(s[1..])
  }

  datatype Op<V> = Get(key: Key) | Set(key: Key, value: V) | Delete(key: Key) | Clear

  ghost function AfterGet<V>(s: seq<Entry<V>>, k: Key): seq<Entry<V>> {
    match Lookup(s, k)
    case None => s
    case Some(v) => [Entry(k, v)] + Without(s, k)
  }

  ghost function AfterSet<V>(s: seq<Entry<V>>, k: Key, v: V, capacity: nat): seq<Entry<V>> {
    var t := [Entry(k, v)] + Without(s, k);
    if Lookup(s, k).None? && |t| > capacity then t[..|t| - 1] else t
  }

  ghost function Step<V>(s: seq<Entry<V>>, op: Op<V>, capacity: nat): seq<Entry<V>> {
    match op
    case Get(k) => AfterGet(s, k)
    case Set(k, v) => AfterSet(s, k, v, capacity)
    case Delete(k) => Without(s, k)
    case Clear => []
  }

  /** The list after a run of calls on a new cache. */
  ghost function Run<V>(ops: seq<Op<V>>, capacity: nat): seq<Entry<V>> {
    if ops == [] then [] else Step(Run(ops[..|ops| - 1], capacity), ops[|ops| - 1], capacity)
  }

  /** What an unbounded store would answer: the value of the last Set of k, unless k was
      deleted or the store cleared after it. */
  ghost function LastSet<V>(ops: seq<Op<V>>, k: Key): Option<V> {
    if ops == [] then None else
      var before := LastSet(ops[..|ops| - 1], k);
      match ops[|ops| - 1]
      case Get(_) => before
      case Set(x, v) => if x == k then Some(v) else before
      case Delete(x) => if x == k then None else before
      case Clear => None
  }

  // ---------------------------------------------------------------------
  // The class

  class Element<V> {
    const key: Key
    var value: V

    constructor (key: Key, value: V)
      ensures this.key == key && this.value == value
    {
      this.key := key;
      this.value := value;
    }
  }

  lemma EntriesFirst<V>(ll: seq<Element<V>>)
    requires ll != []
    ensures Entries(ll) == [Entry(ll[0].key, ll[0].value)] + Entries(ll[1..])
  {
  }

  /** Unlink one element. */
  function Unlinked<V>(ll: seq<Element<V>>, e: Element<V>): seq<Element<V>> {
    if ll == [] then []
    else if ll[0] == e then ll[1..]
    else [ll[0]] + Unlinked(ll[1..], e)
  }

  ghost function Entries<V>(ll: seq<Element<V>>): (r: seq<Entry<V>>)
    reads ll
    ensures |r| == |ll|
  {
    if ll == [] then [] else [Entry(ll[0].key, ll[0].value)] + Entries(ll[1..])
  }

  class MemoryLRU<V> {
    const capacity: nat
    var ll: seq<Element<V>>
    var cache: map<Key, Element<V>>

    /** The index holds exactly the listed elements, each under its own key. */
    ghost predicate Indexed()
      reads this
    {
      && Distinct(ll)
      && (forall e :: e in ll ==> e.key in cache && cache[e.key] == e)
      && (forall k :: k in cache ==> cache[k] in ll && cache[k].key == k)
    }

    ghost predicate Valid()
      reads this
    {
      Indexed() && |ll| <= capacity && capacity >= 1
    }

    ghost function Contents(): seq<Entry<V>>
      reads this, ll
    {
      Entries(ll)
    }

    constructor (capacity: int)
      ensures Valid() && Contents() == [] && ll == []
      ensures this.capacity == if capacity <= 0 then 1000 else capacity
    {
      this.capacity := if capacity <= 0 then 1000 else capacity;
      ll := [];
      cache := map[];
    }

    method Get(key: Key) returns (r: Option<V>)
      requires Valid()
      modifies this
      ensures Valid() && multiset(ll) == multiset(old(ll))
      ensures Contents() == Step(old(Contents()), Op.Get(key), capacity)
      ensures r == Lookup(old(Contents()), key)
    {
      if key in cache {
        var ele := cache[key];
        MoveToFront(ele);
        r := Some(ele.value);
      } else {
        AbsentLookup(ll, key);
        r := None;
      }
    }

    method MoveToFront(ele: Element<V>)
      requires Valid() && ele in ll
      modifies this
      ensures Valid() && cache == old(cache) && multiset(ll) == multiset(old(ll)) && ll != [] && ll[0] == ele
      ensures Lookup(old(Contents()), ele.key) == Some(ele.value)
      ensures Contents() == [Entry(ele.key, ele.value)] + Without(old(Contents()), ele.key)
    {
      UnlinkedElements(ll, ele);
      UnlinkedEntries(ll, ele);
      ll := [ele] + Unlinked(ll, ele);
    }

    method Set(key: Key, value: V)
      requires Valid()
      modifies this, ll
      ensures Valid() && forall e :: e in ll ==> e in old(ll) || fresh(e)
      ensures Contents() == Step(old(Contents()), Op.Set(key, value), capacity)
    {
      hide Entries, Without, Lookup;
      ghost var s := Contents();
      if key in cache {
        var ele := cache[key];
        MoveToFront(ele);
        EntriesFirst(ll);
        ghost var rest := Entries(ll[1..]);
        assert rest == Contents()[1..] == Without(s, key);
        ele.value := value;
        EntriesFirst(ll);
        assert ele !in ll[1..] && Entries(ll[1..]) == rest;
        assert Contents() == [Entry(key, value)] + Without(s, key);
        return;
      }
      AbsentLookup(ll, key);
      AbsentWithout(s, key);
      PushFront(key, value);
      assert Contents() == [Entry(key, value)] + s;
      if capacity != 0 && |ll| > capacity {
        RemoveOldest();
      }
    }

    method PushFront(key: Key, value: V)
      requires Indexed() && key !in cache
      modifies this
      ensures Indexed() && |ll| == |old(ll)| + 1 && fresh(ll[0]) && ll[1..] == old(ll)
      ensures Contents() == [Entry(key, value)] + old(Contents())
    {
      ghost var before := Entries(ll);
      var ele := new Element(key, value);
      DistinctCons(ele, ll);
      assert Entries(ll) == before;
      ll := [ele] + ll;
      cache := cache[key := ele];
    }

    method Delete(key: Key)
      requires Valid()
      modifies this
      ensures Valid() && forall e :: e in ll ==> e in old(ll)
      ensures Contents() == Step(old(Contents()), Op.Delete(key), capacity)
    {
      if key in cache {
        RemoveElement(cache[key]);
      } else {
        AbsentLookup(ll, key);
        AbsentWithout(Contents(), key);
      }
    }

    method Clear()
      requires Valid()
      modifies this
      ensures Valid() && ll == []
      ensures Contents() == Step(old(Contents()), Op.Clear, capacity)
    {
      ll := [];
      cache := map[];
    }

    method RemoveOldest()
      requires Indexed()
      modifies this
      ensures Indexed() && ll == if old(ll) == [] then [] else old(ll)[..|old(ll)| - 1]
      ensures Contents() == if old(ll) == [] then [] else old(Contents())[..|old(Contents())| - 1]
    {
      if |ll| > 0 {
        UnlinkedLast(ll);
        EntriesPrefix(ll, |ll| - 1);
        RemoveElement(ll[|ll| - 1]);
      }
    }

    method RemoveElement(e: Element<V>)
      requires Indexed() && e in ll
      modifies this
      ensures Indexed() && ll == Unlinked(old(ll), e) && |ll| == |old(ll)| - 1
      ensures forall d :: d in ll ==> d in old(ll)
      ensures Contents() == Without(old(Contents()), e.key)
    {
      UnlinkedElements(ll, e);
      UnlinkedEntries(ll, e);
      ll := Unlinked(ll, e);
      cache := cache - {e.key};
    }
  }

  // ---------------------------------------------------------------------
  // The linked elements against the list value

  lemma UnlinkedElements<V>(ll: seq<Element<V>>, e: Element<V>)
    requires e in ll && Distinct(ll)
    ensures Distinct(Unlinked(ll, e)) && Distinct([e] + Unlinked(ll, e))
    ensures forall d :: d in Unlinked(ll, e) <==> d in ll && d != e
    ensures multiset([e] + Unlinked(ll, e)) == multiset(ll)
    ensures |Unlinked(ll, e)| == |ll| - 1
  {
    assert ll == [ll[0]] + ll[1..];
    if ll[0] != e {
      UnlinkedElements(ll[1..], e);
      DistinctCons(ll[0], Unlinked(ll[1..], e));
    }
    DistinctCons(e, Unlinked(ll, e));
  }

  lemma DistinctCons<T>(x: T, s: seq<T>)
    requires Distinct(s) && x !in s
    ensures Distinct([x] + s)
  {
  }

  lemma UnlinkedEntries<V>(ll: seq<Element<V>>, e: Element<V>)
    requires e in ll && forall i, j :: 0 <= i < j < |ll| ==> ll[i].key != ll[j].key
    ensures Entries(Unlinked(ll, e)) == Without(Entries(ll), e.key)
    ensures Lookup(Entries(ll), e.key) == Some(e.value)
  {
    if ll[0] == e {
      AbsentLookup(ll[1..], e.key);
      AbsentWithout(Entries(ll[1..]), e.key);
    } else {
      UnlinkedEntries(ll[1..], e);
    }
  }

  lemma AbsentLookup<V>(ll: seq<Element<V>>, k: Key)
    requires forall e :: e in ll ==> e.key != k
    ensures Lookup(Entries(ll), k) == None
  {
  }

  lemma AbsentWithout<V>(s: seq<Entry<V>>, k: Key)
    requires Lookup(s, k).None?
    ensures Without(s, k) == s
  {
  }

  lemma UnlinkedLast<V>(ll: seq<Element<V>>)
    requires ll != [] && Distinct(ll)
    ensures Unlinked(ll, ll[|ll| - 1]) == ll[..|ll| - 1]
  {
    if |ll| > 1 {
      UnlinkedLast(ll[1..]);
    }
  }

  lemma {:induction false} EntryAt<V>(ll: seq<Element<V>>, i: nat)
    requires i < |ll|
    ensures Entries(ll)[i] == Entry(ll[i].key, ll[i].value)
  {
    if i > 0 {
      EntryAt(ll[1..], i - 1);
    }
  }

  lemma EntriesPrefix<V>(ll: seq<Element<V>>, n: nat)
    requires n <= |ll|
    ensures Entries(ll[..n]) == Entries(ll)[..n]
  {
    forall i | 0 <= i < n
      ensures Entries(ll[..n])[i] == Entries(ll)[i]
    {
      EntryAt(ll[..n], i);
      EntryAt(ll, i);
    }
  }

  // ---------------------------------------------------------------------
  // What every run keeps

  /** s is a subsequence of l. */
  ghost predicate Within<V>(s: seq<Entry<V>>, l: seq<Entry<V>>) {
    || s == []
    || (l != [] && ((s[0] == l[0] && Within(s[1..], l[1..])) || Within(s, l[1..])))
  }

  lemma {:induction false} WithoutKeeps<V>(s: seq<Entry<V>>, k: Key, x: Key)
    ensures Lookup(Without(s, k), x) == if x == k then None else Lookup(s, x)
    ensures |Without(s, k)| <= |s|
  {
    if s != [] {
      WithoutKeeps(s[1..], k, x);
    }
  }

  lemma {:induction false} WithoutKeyedOnce<V>(s: seq<Entry<V>>, k: Key)
    requires KeyedOnce(s)
    ensures KeyedOnce(Without(s, k)) && Lookup(Without(s, k), k).None?
    ensures |Without(s, k)| == if Lookup(s, k).None? then |s| else |s| - 1
  {
    WithoutKeeps(s, k, k);
    if s != [] {
      WithoutKeyedOnce(s[1..], k);
      if s[0].key == k {
        AbsentWithout(s[1..], k);
      } else {
        WithoutKeeps(s[1..], k, s[0].key);
      }
    }
  }

  lemma {:induction false} DropLastKeeps<V>(s: seq<Entry<V>>, x: Key)
    requires s != [] && KeyedOnce(s)
    ensures KeyedOnce(s[..|s| - 1])
    ensures Lookup(s[..|s| - 1], x) == if x == s[|s| - 1].key then None else Lookup(s, x)
  {
    if |s| > 1 {
      assert s[..|s| - 1] == [s[0]] + s[1..][..|s| - 2];
      DropLastKeeps(s[1..], x);
      DropLastKeeps(s[1..], s[0].key);
      LastFound(s[1..]);
    }
  }

  lemma {:induction false} LastFound<V>(s: seq<Entry<V>>)
    requires s != [] && KeyedOnce(s)
    ensures Lookup(s, s[|s| - 1].key) == Some(s[|s| - 1].value)
  {
    if |s| > 1 {
      LastFound(s[1..]);
    }
  }

  /** The list stays within the capacity and keyed once. */
  ghost predicate Bounded<V>(s: seq<Entry<V>>, capacity: nat) {
    KeyedOnce(s) && |s| <= capacity
  }

  lemma FrontKeyedOnce<V>(e: Entry<V>, s: seq<Entry<V>>)
    requires KeyedOnce(s) && Lookup(s, e.key).None?
    ensures KeyedOnce([e] + s)
  {
    assert ([e] + s)[1..] == s;
  }

  lemma StepBounded<V>(s: seq<Entry<V>>, op: Op<V>, capacity: nat)
    requires Bounded(s, capacity) && capacity >= 1
    ensures Bounded(Step(s, op, capacity), capacity)
  {
    match op {
      case Get(k) =>
        WithoutKeyedOnce(s, k);
        if v :| Lookup(s, k) == Some(v) {
          FrontKeyedOnce(Entry(k, v), Without(s, k));
        }
      case Set(k, v) =>
        WithoutKeyedOnce(s, k);
        var t := [Entry(k, v)] + Without(s, k);
        FrontKeyedOnce(Entry(k, v), Without(s, k));
        DropLastKeeps(t, k);
      case Delete(k) =>
        WithoutKeyedOnce(s, k);
      case Clear =>
    }
  }

  lemma {:induction false} RunBounded<V>(ops: seq<Op<V>>, capacity: nat)
    requires capacity >= 1
    ensures Bounded(Run(ops, capacity), capacity)
  {
    if ops != [] {
      RunBounded(ops[..|ops| - 1], capacity);
      StepBounded(Run(ops[..|ops| - 1], capacity), ops[|ops| - 1], capacity);
    }
  }

  // ---------------------------------------------------------------------
  // A smaller cache inside a larger one

  lemma {:induction false} WithinWithout<V>(s: seq<Entry<V>>, l: seq<Entry<V>>, k: Key)
    requires Within(s, l)
    ensures Within(Without(s, k), Without(l, k))
    decreases |l|
  {
    if s != [] {
      if s[0] == l[0] && Within(s[1..], l[1..]) {
        WithinWithout(s[1..], l[1..], k);
        if s[0].key != k {
          WithinFront(s[0], Without(s[1..], k), Without(l[1..], k));
        }
      } else {
        WithinWithout(s, l[1..], k);
        if l[0].key != k {
          WithinMore(Without(s, k), l[0], Without(l[1..], k));
        }
      }
    }
  }

  lemma WithinFront<V>(e: Entry<V>, s: seq<Entry<V>>, l: seq<Entry<V>>)
    requires Within(s, l)
    ensures Within([e] + s, [e] + l)
  {
    assert ([e] + s)[1..] == s && ([e] + l)[1..] == l;
  }

  lemma WithinMore<V>(s: seq<Entry<V>>, e: Entry<V>, l: seq<Entry<V>>)
    requires Within(s, l)
    ensures Within(s, [e] + l)
  {
    assert ([e] + l)[1..] == l;
  }

  lemma {:induction false} WithinDropLast<V>(s: seq<Entry<V>>, l: seq<Entry<V>>)
    requires Within(s, l) && s != []
    ensures l != [] && Within(s[..|s| - 1], l[..|l| - 1])
    decreases |l|
  {
    var e := l[0];
    if s[0] == e && Within(s[1..], l[1..]) {
      if |s| > 1 {
        WithinDropLast(s[1..], l[1..]);
        WithinFront(e, s[1..][..|s| - 2], l[1..][..|l| - 2]);
        assert s[..|s| - 1] == [e] + s[1..][..|s| - 2];
        assert l[..|l| - 1] == [e] + l[1..][..|l| - 2];
      }
    } else {
      WithinDropLast(s, l[1..]);
      WithinMore(s[..|s| - 1], e, l[1..][..|l| - 2]);
      assert l[..|l| - 1] == [e] + l[1..][..|l| - 2];
    }
  }

  lemma {:induction false} WithinShorter<V>(s: seq<Entry<V>>, l: seq<Entry<V>>)
    requires Within(s, l) && s != []
    ensures Within(s[..|s| - 1], l)
    decreases |l|
  {
    if s[0] == l[0] && Within(s[1..], l[1..]) {
      if |s| > 1 {
        WithinShorter(s[1..], l[1..]);
        WithinFront(s[0], s[1..][..|s| - 2], l[1..]);
        assert s[..|s| - 1] == [s[0]] + s[1..][..|s| - 2];
      }
    } else {
      WithinShorter(s, l[1..]);
    }
  }

  /** What the inner list answers, the outer list answers too. */
  lemma {:induction false} WithinLookup<V>(s: seq<Entry<V>>, l: seq<Entry<V>>, k: Key)
    requires Within(s, l) && KeyedOnce(l) && Lookup(s, k).Some?
    ensures Lookup(l, k) == Lookup(s, k)
    decreases |l|
  {
    if s[0] == l[0] && Within(s[1..], l[1..]) {
      if s[0].key != k {
        WithinLookup(s[1..], l[1..], k);
      }
    } else {
      WithinLookup(s, l[1..], k);
    }
  }

  lemma {:induction false} WithinLength<V>(s: seq<Entry<V>>, l: seq<Entry<V>>)
    requires Within(s, l)
    ensures |s| <= |l|
    decreases |l|
  {
    if s != [] {
      if s[0] == l[0] && Within(s[1..], l[1..]) {
        WithinLength(s[1..], l[1..]);
      } else {
        WithinLength(s, l[1..]);
      }
    }
  }

  /** The relation every step keeps between a cache of capacity k and one of capacity m. */
  ghost predicate Nested<V>(s: seq<Entry<V>>, k: nat, l: seq<Entry<V>>, m: nat) {
    Bounded(s, k) && Bounded(l, m) && Within(s, l) && |l| - |s| <= m - k
  }

  lemma SetNested<V>(s: seq<Entry<V>>, k: nat, l: seq<Entry<V>>, m: nat, x: Key, v: V)
    requires Nested(s, k, l, m) && 1 <= k <= m
    ensures Within(AfterSet(s, x, v, k), AfterSet(l, x, v, m))
    ensures |AfterSet(l, x, v, m)| - |AfterSet(s, x, v, k)| <= m - k
  {
    hide Within, KeyedOnce, Without, Lookup;
    var e := Entry(x, v);
    WithinWithout(s, l, x);
    WithoutKeyedOnce(s, x);
    WithoutKeyedOnce(l, x);
    if Lookup(s, x).Some? {
      WithinLookup(s, l, x);
    }
    var s', l' := [e] + Without(s, x), [e] + Without(l, x);
    WithinFront(e, Without(s, x), Without(l, x));
    WithinDropLast(s', l');
    WithinShorter(s', l');
  }

  lemma GetNested<V>(s: seq<Entry<V>>, k: nat, l: seq<Entry<V>>, m: nat, x: Key)
    requires Nested(s, k, l, m)
    ensures Within(AfterGet(s, x), AfterGet(l, x)) && |AfterGet(l, x)| - |AfterGet(s, x)| <= m - k
  {
    hide Within, KeyedOnce, Without, Lookup;
    WithinWithout(s, l, x);
    WithoutKeyedOnce(s, x);
    WithoutKeyedOnce(l, x);
    match Lookup(s, x) {
      case Some(v) =>
        WithinLookup(s, l, x);
        WithinFront(Entry(x, v), Without(s, x), Without(l, x));
      case None =>
        if w :| Lookup(l, x) == Some(w) {
          AbsentWithout(s, x);
          WithinMore(s, Entry(x, w), Without(l, x));
        }
    }
  }

  lemma StepNested<V>(s: seq<Entry<V>>, k: nat, l: seq<Entry<V>>, m: nat, op: Op<V>)
    requires Nested(s, k, l, m) && 1 <= k <= m
    ensures Nested(Step(s, op, k), k, Step(l, op, m), m)
  {
    hide Within, KeyedOnce, Without, Lookup, AfterGet, AfterSet;
    StepBounded(s, op, k);
    StepBounded(l, op, m);
    match op {
      case Get(x) => GetNested(s, k, l, m, x);
      case Set(x, v) => SetNested(s, k, l, m, x, v);
      case Delete(x) =>
        WithinWithout(s, l, x);
        WithoutKeyedOnce(s, x);
        WithoutKeyedOnce(l, x);
        if Lookup(s, x).Some? {
          WithinLookup(s, l, x);
        }
      case Clear => EmptyWithin<V>();
    }
  }

  lemma EmptyWithin<V>()
    ensures Within<V>([], [])
  {
  }

  /** Inclusion: the same calls on a smaller and a larger cache. */
  lemma {:induction false} RunsNested<V>(ops: seq<Op<V>>, k: nat, m: nat)
    requires 1 <= k <= m
    ensures Nested(Run(ops, k), k, Run(ops, m), m)
    ensures |Run(ops, k)| <= |Run(ops, m)| <= |Run(ops, k)| + (m - k)
  {
    if ops != [] {
      var before := ops[..|ops| - 1];
      RunsNested(before, k, m);
      StepNested(Run(before, k), k, Run(before, m), m, ops[|ops| - 1]);
    }
    WithinLength(Run(ops, k), Run(ops, m));
  }

  /** So every hit in the smaller cache is a hit in the larger, with the same value. */
  lemma SmallerHitsLarger<V>(ops: seq<Op<V>>, k: nat, m: nat, x: Key)
    requires 1 <= k <= m && Lookup(Run(ops, k), x).Some?
    ensures Lookup(Run(ops, m), x) == Lookup(Run(ops, k), x)
  {
    RunsNested(ops, k, m);
    WithinLookup(Run(ops, k), Run(ops, m), x);
  }

  // ---------------------------------------------------------------------
  // What a run remembers

  ghost function SetKeys<V>(ops: seq<Op<V>>): set<Key> {
    set op | op in ops && op.Set? :: op.key
  }

  lemma StepLookup<V>(s: seq<Entry<V>>, op: Op<V>, capacity: nat, x: Key)
    requires Bounded(s, capacity) && capacity >= 1
    ensures op.Get? ==> Lookup(Step(s, op, capacity), x) == Lookup(s, x)
    ensures op.Set? && x == op.key ==> Lookup(Step(s, op, capacity), x) == Some(op.value)
    ensures op.Set? && x != op.key ==> Lookup(Step(s, op, capacity), x) in {None, Lookup(s, x)}
    ensures op.Delete? ==> Lookup(Step(s, op, capacity), x) == if x == op.key then None else Lookup(s, x)
  {
    if !op.Clear? {
      WithoutKeeps(s, op.key, x);
      WithoutKeyedOnce(s, op.key);
    }
    if op.Set? {
      var t := [Entry(op.key, op.value)] + Without(s, op.key);
      FrontKeyedOnce(t[0], Without(s, op.key));
      DropLastKeeps(t, x);
      assert |t| > 1 ==> t[..|t| - 1][0] == t[0];
    }
  }

  /** A hit returns the value last Set, and never one deleted or cleared since. */
  lemma {:induction false} HitIsLastSet<V>(ops: seq<Op<V>>, capacity: nat, x: Key)
    requires capacity >= 1 && Lookup(Run(ops, capacity), x).Some?
    ensures Lookup(Run(ops, capacity), x) == LastSet(ops, x) && x in SetKeys(ops)
  {
    var before, op := ops[..|ops| - 1], ops[|ops| - 1];
    RunBounded(before, capacity);
    StepLookup(Run(before, capacity), op, capacity, x);
    if op.Set? && op.key == x {
      assert op in ops;
    } else {
      HitIsLastSet(before, capacity, x);
      assert forall o :: o in before ==> o in ops;
    }
  }

  /** The keys used more recently than x. */
  ghost function KeysAhead<V>(s: seq<Entry<V>>, x: Key): set<Key> {
    if s == [] || s[0].key == x then {} else {s[0].key} + KeysAhead(s[1..], x)
  }

  lemma {:induction false} AheadWithout<V>(s: seq<Entry<V>>, k: Key, x: Key)
    requires k != x
    ensures KeysAhead(Without(s, k), x) <= KeysAhead(s, x)
  {
    if s != [] {
      AheadWithout(s[1..], k, x);
    }
  }

  lemma {:induction false} AheadOfLast<V>(s: seq<Entry<V>>)
    requires s != [] && KeyedOnce(s)
    ensures |KeysAhead(s, s[|s| - 1].key)| == |s| - 1
  {
    var x := s[|s| - 1].key;
    if |s| > 1 {
      AheadOfLast(s[1..]);
      LastFound(s[1..]);
      AheadListed(s[1..], x, s[0].key);
    }
  }

  lemma {:induction false} AheadListed<V>(s: seq<Entry<V>>, x: Key, k: Key)
    requires Lookup(s, k).None?
    ensures k !in KeysAhead(s, x)
  {
    if s != [] && s[0].key != x {
      AheadListed(s[1..], x, k);
    }
  }

  lemma {:induction false} AheadOfPrefix<V>(s: seq<Entry<V>>, x: Key)
    requires s != [] && KeyedOnce(s) && Lookup(s, x).Some? && s[|s| - 1].key != x
    ensures KeysAhead(s[..|s| - 1], x) == KeysAhead(s, x)
  {
    if |s| > 1 && s[0].key != x {
      AheadOfPrefix(s[1..], x);
      assert s[..|s| - 1][1..] == s[1..][..|s| - 2];
    }
  }

  /** x is cached and only keys of `rivals` are ahead of it. */
  ghost predicate Leading<V>(s: seq<Entry<V>>, x: Key, rivals: set<Key>) {
    Lookup(s, x).Some? && KeysAhead(s, x) <= rivals
  }

  lemma FrontLeading<V>(s: seq<Entry<V>>, k: Key, v: V, x: Key, rivals: set<Key>)
    requires k == x || (k in rivals && Leading(s, x, rivals))
    ensures Leading([Entry(k, v)] + Without(s, k), x, rivals)
  {
    var t := [Entry(k, v)] + Without(s, k);
    assert t[1..] == Without(s, k);
    if k != x {
      WithoutKeeps(s, k, x);
      AheadWithout(s, k, x);
    }
  }

  lemma NoneAhead<V>(s: seq<Entry<V>>, x: Key, rivals: set<Key>)
    requires Leading(s, x, {})
    ensures Leading(s, x, rivals)
  {
  }

  lemma LeadingStays<V>(s: seq<Entry<V>>, op: Op<V>, capacity: nat, x: Key, rivals: set<Key>)
    requires Bounded(s, capacity) && capacity >= 1 && Leading(s, x, rivals) && |rivals| < capacity
    requires !op.Clear? && !(op.Delete? && op.key == x)
    requires op.Set? || (op.Get? && Lookup(s, op.key).Some?) ==> op.key == x || op.key in rivals
    ensures Leading(Step(s, op, capacity), x, rivals)
  {
    match op {
      case Get(k) =>
        if v :| Lookup(s, k) == Some(v) {
          FrontLeading(s, k, v, x, rivals);
        }
      case Set(k, v) =>
        var t := [Entry(k, v)] + Without(s, k);
        FrontLeading(s, k, v, x, rivals);
        WithoutKeyedOnce(s, k);
        FrontKeyedOnce(t[0], Without(s, k));
        if |t| > capacity {
          AheadOfLast(t);
          if t[|t| - 1].key == x {
            SubsetCard(KeysAhead(t, x), rivals);
          }
          AheadOfPrefix(t, x);
          DropLastKeeps(t, x);
        }
      case Delete(k) =>
        WithoutKeeps(s, k, x);
        AheadWithout(s, k, x);
    }
  }

  ghost predicate Spares<V>(ops: seq<Op<V>>, x: Key) {
    forall op :: op in ops ==> !op.Clear? && !(op.Delete? && op.key == x)
  }

  /** The other keys that calls after the use of x can have moved ahead of it. */
  ghost function Rivals<V>(before: seq<Op<V>>, later: seq<Op<V>>, x: Key): set<Key> {
    (set op | op in later && (op.Get? || op.Set?) :: op.key) * SetKeys(before + later) - {x}
  }

  lemma {:induction false} LeadingRun<V>(before: seq<Op<V>>, later: seq<Op<V>>, j: nat, capacity: nat, x: Key, rivals: set<Key>)
    requires capacity >= 1 && |rivals| < capacity && Leading(Run(before, capacity), x, {})
    requires j <= |later| && Spares(later, x) && rivals == Rivals(before, later, x)
    ensures Leading(Run(before + later[..j], capacity), x, rivals)
    decreases j
  {
    hide Leading, Bounded, Step, Run, Spares, Rivals, Lookup;
    if j == 0 {
      NoneAhead(Run(before, capacity), x, rivals);
      assert before + later[..0] == before;
    } else {
      var sofar, op := before + later[..j - 1], later[j - 1];
      LeadingRun(before, later, j - 1, capacity, x, rivals);
      RunBounded(sofar, capacity);
      RivalsMove(before, later, j, capacity, x);
      LeadingStays(Run(sofar, capacity), op, capacity, x, rivals);
      RunStep(before + later[..j], sofar, op, capacity);
    }
  }

  lemma RunStep<V>(ops: seq<Op<V>>, sofar: seq<Op<V>>, op: Op<V>, capacity: nat)
    requires ops == sofar + [op]
    ensures Run(ops, capacity) == Step(Run(sofar, capacity), op, capacity)
  {
  }

  /** A call can only move x or one of its rivals to the front. */
  lemma RivalsMove<V>(before: seq<Op<V>>, later: seq<Op<V>>, j: nat, capacity: nat, x: Key)
    requires capacity >= 1 && 1 <= j <= |later| && Spares(later, x)
    ensures var s, op := Run(before + later[..j - 1], capacity), later[j - 1];
            && !op.Clear? && !(op.Delete? && op.key == x)
            && (op.Set? || (op.Get? && Lookup(s, op.key).Some?) ==> op.key == x || op.key in Rivals(before, later, x))
  {
    var sofar, op := before + later[..j - 1], later[j - 1];
    assert op in later && op in before + later;
    if op.Get? && Lookup(Run(sofar, capacity), op.key).Some? {
      HitIsLastSet(sofar, capacity, op.key);
      assert forall o :: o in sofar ==> o in before + later;
    }
  }

  /** Least recently used: a key just Set or hit survives while fewer than `capacity` other
      keys are used after it. */
  lemma RecentlyUsedStays<V>(before: seq<Op<V>>, later: seq<Op<V>>, capacity: nat, x: Key)
    requires capacity >= 1 && before != [] && Lookup(Run(before, capacity), x).Some?
    requires before[|before| - 1].Get? || before[|before| - 1].Set?
    requires before[|before| - 1].key == x
    requires Spares(later, x) && |Rivals(before, later, x)| < capacity
    ensures Lookup(Run(before + later, capacity), x) == LastSet(before + later, x) != None
  {
    var s := Run(before[..|before| - 1], capacity);
    RunBounded(before[..|before| - 1], capacity);
    StepLookup(s, before[|before| - 1], capacity, x);
    assert KeysAhead(Run(before, capacity), x) == {};
    LeadingRun(before, later, |later|, capacity, x, Rivals(before, later, x));
    assert later[..|later|] == later;
    HitIsLastSet(before + later, capacity, x);
  }

  /** Where the remembered value was Set. */
  lemma {:induction false} LastSetAt<V>(ops: seq<Op<V>>, x: Key) returns (i: nat)
    requires LastSet(ops, x).Some?
    ensures i < |ops| && ops[i].Set? && ops[i].key == x && Spares(ops[i + 1..], x)
  {
    var op := ops[|ops| - 1];
    if op.Set? && op.key == x {
      i := |ops| - 1;
    } else {
      i := LastSetAt(ops[..|ops| - 1], x);
      assert ops[i + 1..] == ops[..|ops| - 1][i + 1..] + [op];
    }
  }

  lemma JustSet<V>(ops: seq<Op<V>>, op: Op<V>, capacity: nat)
    requires capacity >= 1 && op.Set?
    ensures Lookup(Run(ops + [op], capacity), op.key).Some?
  {
    hide Bounded, Lookup, Run;
    RunBounded(ops, capacity);
    RunStep(ops + [op], ops, op, capacity);
    StepLookup(Run(ops, capacity), op, capacity, op.key);
  }

  lemma FewRivals<V>(before: seq<Op<V>>, later: seq<Op<V>>, x: Key, capacity: nat)
    requires |SetKeys(before + later)| <= capacity && x in SetKeys(before + later)
    ensures |Rivals(before, later, x)| < capacity
  {
    SubsetCard(Rivals(before, later, x), SetKeys(before + later) - {x});
  }

  /** A cache with room for every key ever Set answers like an unbounded store. */
  lemma NothingLost<V>(ops: seq<Op<V>>, capacity: nat, x: Key)
    requires capacity >= 1 && |SetKeys(ops)| <= capacity
    ensures Lookup(Run(ops, capacity), x) == LastSet(ops, x)
  {
    hide KeysAhead, Bounded, LastSet, Run, Lookup, Rivals, Spares;
    if Lookup(Run(ops, capacity), x).Some? {
      HitIsLastSet(ops, capacity, x);
    } else if LastSet(ops, x).Some? {
      var i := LastSetAt(ops, x);
      var before, later := ops[..i] + [ops[i]], ops[i + 1..];
      assert before + later == ops && ops[i] in ops;
      JustSet(ops[..i], ops[i], capacity);
      FewRivals(before, later, x, capacity);
      RecentlyUsedStays(before, later, capacity, x);
    }
  }
}
