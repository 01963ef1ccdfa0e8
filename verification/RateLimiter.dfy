/** The per-address token bucket of the HTTP layer, with its cleanup of idle addresses.
    Times are seconds. */
module RateLimiter {
  import opened RealArith

  datatype Level = Level(tokens: real, lastSeen: real)

  const IDLE := 300.0

  /** The capacity that a configured burst stands for. */
  function Capacity(burst: int): (r: real)
    ensures r >= 1.0
  {
    if burst < 1 then 1.0 else burst as real
  }

  // ---------------------------------------------------------------------
  // Buckets as values

  /** The tokens of an address at a time; an unknown address has a full bucket. */
  ghost function Tokens(view: map<string, Level>, ip: string, now: real, rate: real, burst: real): real {
    if ip !in view then burst else
      var t := view[ip].tokens + Times(now - view[ip].lastSeen, rate);
      if t > burst then burst else t
  }

  ghost predicate Allows(view: map<string, Level>, ip: string, now: real, rate: real, burst: real) {
    Tokens(view, ip, now, rate, burst) >= 1.0
  }

  ghost function AfterCall(view: map<string, Level>, ip: string, now: real, rate: real, burst: real): map<string, Level> {
    var t := Tokens(view, ip, now, rate, burst);
    view[ip := Level(if t >= 1.0 then t - 1.0 else t, now)]
  }

  lemma FullIfNew(view: map<string, Level>, ip: string, now: real, rate: real, burst: real)
    ensures ip !in view ==> Tokens(view[ip := Level(burst, now)], ip, now, rate, burst) == Tokens(view, ip, now, rate, burst)
  {
  }

  ghost function AfterCleanup(view: map<string, Level>, now: real): map<string, Level> {
    map ip | ip in view && view[ip].lastSeen >= now - IDLE :: view[ip]
  }

  // ---------------------------------------------------------------------
  // The class

  class Bucket {
    var tokens: real
    var lastSeen: real

    constructor (tokens: real, lastSeen: real)
      ensures this.tokens == tokens && this.lastSeen == lastSeen
    {
      this.tokens := tokens;
      this.lastSeen := lastSeen;
    }
  }

  class RateLimiter {
    var buckets: map<string, Bucket>

    constructor ()
      ensures Valid() && View() == map[]
    {
      buckets := map[];
    }

    /** Every address has a bucket of its own. */
    ghost predicate Valid()
      reads this
    {
      forall a, b :: a in buckets && b in buckets && a != b ==> buckets[a] != buckets[b]
    }

    ghost function View(): map<string, Level>
      reads this, buckets.Values
    {
      map ip | ip in buckets :: Level(buckets[ip].tokens, buckets[ip].lastSeen)
    }

    method AllowIP(ip: string, now: real, rateLimit: int, burstLimit: int) returns (ok: bool)
      requires Valid()
      modifies this, buckets.Values
      ensures Valid() && forall b :: b in buckets.Values ==> b in old(buckets.Values) || fresh(b)
      ensures rateLimit == 0 ==> ok && View() == old(View())
      ensures rateLimit != 0 ==> ok == Allows(old(View()), ip, now, rateLimit as real, Capacity(burstLimit))
      ensures rateLimit != 0 ==> View() == AfterCall(old(View()), ip, now, rateLimit as real, Capacity(burstLimit))
    {
      if rateLimit == 0 {
        return true;
      }
      var burst := burstLimit as real;
      if burst < 1.0 {
        burst := 1.0;
      }
      var rate := rateLimit as real;
      hide Tokens;
      ghost var v := View();
      var entry := Entry(ip, now, burst);
      ghost var found := View();
      assert found[ip] == Level(entry.tokens, entry.lastSeen);
      FullIfNew(v, ip, now, rate, burst);
      ok := Charge(ip, entry, now, rate, burst);
    }

    /** Refill the bucket, cap it, and take one token if there is one. */
    method Charge(ip: string, entry: Bucket, now: real, rate: real, burst: real) returns (ok: bool)
      requires Valid() && ip in buckets && buckets[ip] == entry
      modifies entry
      ensures ok == Allows(old(View()), ip, now, rate, burst)
      ensures View() == AfterCall(old(View()), ip, now, rate, burst)
    {
      ghost var v := View();
      var elapsed := now - entry.lastSeen;
      entry.lastSeen := now;
      var gained := elapsed * rate;
      assert gained == Times(elapsed, rate);
      entry.tokens := entry.tokens + gained;
      if entry.tokens > burst {
        entry.tokens := burst;
      }
      assert entry.tokens == Tokens(v, ip, now, rate, burst);
      hide Tokens, Times;
      ok := entry.tokens >= 1.0;
      if ok {
        entry.tokens := entry.tokens - 1.0;
      }
      forall a | a in buckets && a != ip
        ensures buckets[a] != entry && Level(buckets[a].tokens, buckets[a].lastSeen) == v[a]
      {
      }
    }

    /** The bucket of the address, made full if there is none. */
    method Entry(ip: string, now: real, burst: real) returns (entry: Bucket)
      requires Valid()
      modifies this
      ensures Valid() && ip in buckets && buckets[ip] == entry
      ensures entry in old(buckets.Values) || fresh(entry)
      ensures forall b :: b in buckets.Values ==> b in old(buckets.Values) || b == entry
      ensures View() == if ip in old(View()) then old(View()) else old(View())[ip := Level(burst, now)]
    {
      if ip !in buckets {
        var e := new Bucket(burst, now);
        buckets := buckets[ip := e];
      }
      entry := buckets[ip];
    }

    /** One tick of the cleanup, which visits the addresses in any order. */
    method EvictIdle(now: real)
      requires Valid()
      modifies this
      ensures Valid() && buckets.Values <= old(buckets.Values)
      ensures View() == AfterCleanup(old(View()), now)
    {
      var cutoff := now - IDLE;
      var rest := buckets.Keys;
      while rest != {}
        invariant Valid() && rest <= old(buckets).Keys && buckets.Keys <= old(buckets).Keys
        invariant forall ip :: ip in buckets ==> buckets[ip] == old(buckets)[ip]
        invariant forall ip :: ip in old(buckets) ==>
                    (ip in buckets <==> ip in rest || old(buckets)[ip].lastSeen >= cutoff)
        decreases |rest|
      {
        var ip :| ip in rest;
        rest := rest - {ip};
        if ip in buckets && buckets[ip].lastSeen < cutoff {
          buckets := buckets - {ip};
        }
      }
    }
  }

  // ---------------------------------------------------------------------
  // Runs

  datatype Event = Call(ip: string, at: real) | Cleanup(at: real)

  ghost predicate Clocked(events: seq<Event>) {
    forall i, j :: 0 <= i < j < |events| ==> events[i].at <= events[j].at
  }

  ghost function Step(view: map<string, Level>, e: Event, evicting: bool, rate: real, burst: real): map<string, Level> {
    match e
    case Call(ip, at) => AfterCall(view, ip, at, rate, burst)
    case Cleanup(at) => if evicting then AfterCleanup(view, at) else view
  }

  ghost function Run(events: seq<Event>, evicting: bool, rate: real, burst: real): map<string, Level> {
    if events == [] then map[]
    else Step(Run(events[..|events| - 1], evicting, rate, burst), events[|events| - 1], evicting, rate, burst)
  }

  lemma RunAppend(events: seq<Event>, e: Event, evicting: bool, rate: real, burst: real)
    ensures Run(events + [e], evicting, rate, burst) == Step(Run(events, evicting, rate, burst), e, evicting, rate, burst)
  {
    assert (events + [e])[..|events|] == events;
  }

  lemma RunPrefix(events: seq<Event>, j: nat, evicting: bool, rate: real, burst: real)
    requires 1 <= j <= |events|
    ensures Run(events[..j], evicting, rate, burst)
         == Step(Run(events[..j - 1], evicting, rate, burst), events[j - 1], evicting, rate, burst)
  {
    assert events[..j][..j - 1] == events[..j - 1];
  }

  /** Whether event i is a call of ip that is let through. */
  ghost predicate AllowedAt(events: seq<Event>, i: nat, ip: string, evicting: bool, rate: real, burst: real)
    requires i < |events|
  {
    && events[i].Call? && events[i].ip == ip
    && Allows(Run(events[..i], evicting, rate, burst), ip, events[i].at, rate, burst)
  }

  /** How many of the events a..b are calls of ip that are let through. */
  ghost function AllowedIn(events: seq<Event>, a: nat, b: nat, ip: string, evicting: bool, rate: real, burst: real): nat
    requires a <= b <= |events|
    decreases b - a
  {
    if a == b then 0
    else AllowedIn(events, a, b - 1, ip, evicting, rate, burst)
         + if AllowedAt(events, b - 1, ip, evicting, rate, burst) then 1 else 0
  }

  /** Token counts never go below zero, and no bucket was seen in the future. */
  ghost predicate Sound(view: map<string, Level>, now: real, burst: real) {
    forall ip :: ip in view ==> 0.0 <= view[ip].tokens <= burst && view[ip].lastSeen <= now
  }

  lemma TokensBetween(view: map<string, Level>, ip: string, now: real, later: real, rate: real, burst: real)
    requires Sound(view, now, burst) && now <= later && rate > 0.0 && burst >= 1.0
    ensures 0.0 <= Tokens(view, ip, now, rate, burst) <= Tokens(view, ip, later, rate, burst) <= burst
    ensures Tokens(view, ip, later, rate, burst) <= Tokens(view, ip, now, rate, burst) + Times(rate, later - now)
  {
    MulMonotone(0.0, later - now, rate);
    if ip in view {
      var seen := view[ip].lastSeen;
      MulMonotone(0.0, now - seen, rate);
      assert Times(later - seen, rate) == Times(now - seen, rate) + Times(rate, later - now);
    }
  }

  lemma StepSound(view: map<string, Level>, e: Event, evicting: bool, now: real, rate: real, burst: real)
    requires Sound(view, now, burst) && now <= e.at && rate > 0.0 && burst >= 1.0
    ensures Sound(Step(view, e, evicting, rate, burst), e.at, burst)
  {
    if e.Call? {
      TokensBetween(view, e.ip, now, e.at, rate, burst);
    }
  }

  lemma {:induction false} RunSound(events: seq<Event>, evicting: bool, now: real, rate: real, burst: real)
    requires Clocked(events) && rate > 0.0 && burst >= 1.0
    requires forall i :: 0 <= i < |events| ==> events[i].at <= now
    ensures Sound(Run(events, evicting, rate, burst), now, burst)
  {
    if events != [] {
      var before, e := events[..|events| - 1], events[|events| - 1];
      RunSound(before, evicting, e.at, rate, burst);
      StepSound(Run(before, evicting, rate, burst), e, evicting, e.at, rate, burst);
    }
  }

  /** One event without eviction: calls let through plus tokens left grow with the clock alone. */
  lemma StepBudget(view: map<string, Level>, e: Event, ip: string, now: real, rate: real, burst: real)
    requires Sound(view, now, burst) && now <= e.at && rate > 0.0 && burst >= 1.0
    ensures var passed := if e.Call? && e.ip == ip && Allows(view, ip, e.at, rate, burst) then 1.0 else 0.0;
            passed + Tokens(Step(view, e, false, rate, burst), ip, e.at, rate, burst)
              <= Tokens(view, ip, now, rate, burst) + Times(rate, e.at - now)
  {
    TokensBetween(view, ip, now, e.at, rate, burst);
  }

  lemma {:induction false} NeverEvictingBudget(events: seq<Event>, a: nat, b: nat, ip: string, rate: real, burst: real)
    requires a < b <= |events| && Clocked(events) && rate > 0.0 && burst >= 1.0
    ensures AllowedIn(events, a, b, ip, false, rate, burst) as real
              + Tokens(Run(events[..b], false, rate, burst), ip, events[b - 1].at, rate, burst)
            <= burst + Times(rate, events[b - 1].at - events[a].at)
    decreases b
  {
    hide Times, Tokens;
    var s, e := events[a].at, events[b - 1];
    var now := if a == b - 1 then s else events[b - 2].at;
    var view := Run(events[..b - 1], false, rate, burst);
    assert events[..b][..b - 1] == events[..b - 1];
    RunSound(events[..b - 1], false, now, rate, burst);
    StepBudget(view, e, ip, now, rate, burst);
    ElapsedTwice(e.at, now, s, rate);
    if a == b - 1 {
      TokensBetween(view, ip, s, s, rate, burst);
      TimesUnits(rate);
      assert AllowedIn(events, a, a, ip, false, rate, burst) == 0;
    } else {
      NeverEvictingBudget(events, a, b - 1, ip, rate, burst);
    }
  }

  // ---------------------------------------------------------------------
  // Eviction

  /** Evicting kept a bucket as it is, or dropped one that would be full by now. */
  ghost predicate Agrees(evicted: map<string, Level>, kept: map<string, Level>, now: real) {
    && (forall ip :: ip in evicted ==> ip in kept && evicted[ip] == kept[ip])
    && (forall ip :: ip in kept && ip !in evicted ==> kept[ip].lastSeen < now - IDLE)
  }

  lemma AgreeingTokens(evicted: map<string, Level>, kept: map<string, Level>, ip: string, now: real, rate: real, burst: real)
    requires Agrees(evicted, kept, now) && Sound(kept, now, burst) && rate > 0.0 && burst <= Times(IDLE, rate)
    ensures Tokens(evicted, ip, now, rate, burst) == Tokens(kept, ip, now, rate, burst)
  {
    if ip in kept && ip !in evicted {
      MulMonotone(IDLE, now - kept[ip].lastSeen, rate);
    }
  }

  lemma {:induction false} RunsAgree(events: seq<Event>, now: real, rate: real, burst: real)
    requires Clocked(events) && rate > 0.0 && 1.0 <= burst <= Times(IDLE, rate)
    requires forall i :: 0 <= i < |events| ==> events[i].at <= now
    ensures Agrees(Run(events, true, rate, burst), Run(events, false, rate, burst), now)
  {
    if events != [] {
      var before, e := events[..|events| - 1], events[|events| - 1];
      RunsAgree(before, e.at, rate, burst);
      RunSound(before, false, e.at, rate, burst);
      if e.Call? {
        AgreeingTokens(Run(before, true, rate, burst), Run(before, false, rate, burst), e.ip, e.at, rate, burst);
      }
    }
  }

  /** With a burst that refills within the idle limit, eviction changes no answer. */
  lemma EvictionUnseen(events: seq<Event>, i: nat, ip: string, rate: real, burst: real)
    requires i < |events| && Clocked(events) && rate > 0.0 && 1.0 <= burst <= Times(IDLE, rate)
    ensures AllowedAt(events, i, ip, true, rate, burst) <==> AllowedAt(events, i, ip, false, rate, burst)
  {
    var now := events[i].at;
    RunsAgree(events[..i], now, rate, burst);
    RunSound(events[..i], false, now, rate, burst);
    AgreeingTokens(Run(events[..i], true, rate, burst), Run(events[..i], false, rate, burst), ip, now, rate, burst);
  }

  lemma {:induction false} SameCount(events: seq<Event>, a: nat, b: nat, ip: string, rate: real, burst: real)
    requires a <= b <= |events| && Clocked(events) && rate > 0.0 && 1.0 <= burst <= Times(IDLE, rate)
    ensures AllowedIn(events, a, b, ip, true, rate, burst) == AllowedIn(events, a, b, ip, false, rate, burst)
    decreases b
  {
    if a < b {
      SameCount(events, a, b - 1, ip, rate, burst);
      EvictionUnseen(events, b - 1, ip, rate, burst);
    }
  }

  /** In any window of any run, one address gets at most burst plus rate times the length. */
  ghost predicate WindowBound(evicting: bool, rate: real, burst: real) {
    forall events: seq<Event>, a: nat, b: nat, ip: string :: a < b <= |events| && Clocked(events) ==>
      AllowedIn(events, a, b, ip, evicting, rate, burst) as real <= burst + Times(rate, events[b - 1].at - events[a].at)
  }

  ghost predicate EvictionHarmless(rate: real, burst: real) {
    forall events: seq<Event>, i: nat, ip: string :: i < |events| && Clocked(events) ==>
      (AllowedAt(events, i, ip, true, rate, burst) <==> AllowedAt(events, i, ip, false, rate, burst))
  }

  lemma NeverEvictingWindow(rate: real, burst: real)
    requires rate > 0.0 && burst >= 1.0
    ensures WindowBound(false, rate, burst)
  {
    forall events: seq<Event>, a: nat, b: nat, ip: string | a < b <= |events| && Clocked(events)
      ensures AllowedIn(events, a, b, ip, false, rate, burst) as real <= burst + Times(rate, events[b - 1].at - events[a].at)
    {
      NeverEvictingBudget(events, a, b, ip, rate, burst);
      var now := events[b - 1].at;
      RunSound(events[..b], false, now, rate, burst);
      TokensBetween(Run(events[..b], false, rate, burst), ip, now, now, rate, burst);
    }
  }

  // ---------------------------------------------------------------------
  // What must be let through

  /** Without eviction the bucket is full, or it lacks exactly what was let through since some event
      beyond what has come in since. */
  lemma {:induction false} SpentSince(events: seq<Event>, n: nat, ip: string, now: real, rate: real, burst: real)
    requires n <= |events| && Clocked(events) && rate > 0.0 && burst >= 1.0
    requires forall i :: 0 <= i < n ==> events[i].at <= now
    ensures var t := Tokens(Run(events[..n], false, rate, burst), ip, now, rate, burst);
            t == burst || exists a :: 0 <= a < n && LeftSince(events, a, n, ip, now, t, rate, burst)
  {
    if n > 0 {
      var e, before := events[n - 1], Run(events[..n - 1], false, rate, burst);
      RunPrefix(events, n, false, rate, burst);
      hide Run;
      if e.Call? && e.ip == ip {
        SpentSince(events, n - 1, ip, e.at, rate, burst);
        var t0 := Tokens(before, ip, e.at, rate, burst);
        SpentByCall(events, n - 1, ip, now, t0, rate, burst);
      } else {
        SpentSince(events, n - 1, ip, now, rate, burst);
        var t := Tokens(before, ip, now, rate, burst);
        OtherEvent(before, e, ip, now, rate, burst);
        assert t == Tokens(Run(events[..n], false, rate, burst), ip, now, rate, burst);
        if t != burst {
          var a :| 0 <= a < n - 1 && LeftSince(events, a, n - 1, ip, now, t, rate, burst);
          assert LeftSince(events, a, n, ip, now, t, rate, burst);
        }
      }
    }
  }

  lemma OtherEvent(view: map<string, Level>, e: Event, ip: string, now: real, rate: real, burst: real)
    requires !(e.Call? && e.ip == ip)
    ensures Tokens(Step(view, e, false, rate, burst), ip, now, rate, burst) == Tokens(view, ip, now, rate, burst)
  {
  }

  ghost predicate LeftSince(events: seq<Event>, a: nat, n: nat, ip: string, now: real, t: real, rate: real, burst: real)
    requires a < n <= |events|
  {
    t == burst + Times(rate, now - events[a].at) - AllowedIn(events, a, n, ip, false, rate, burst) as real
  }

  lemma SpentByCall(events: seq<Event>, m: nat, ip: string, now: real, t0: real, rate: real, burst: real)
    requires m < |events| && events[m].Call? && events[m].ip == ip && events[m].at <= now && burst >= 1.0
    requires t0 == Tokens(Run(events[..m], false, rate, burst), ip, events[m].at, rate, burst)
    requires t0 == burst || exists a :: 0 <= a < m && LeftSince(events, a, m, ip, events[m].at, t0, rate, burst)
    ensures var t := Tokens(Run(events[..m + 1], false, rate, burst), ip, now, rate, burst);
            t == burst || exists a: nat {:trigger events[a]} :: a <= m && LeftSince(events, a, m + 1, ip, now, t, rate, burst)
  {
    hide Times;
    var at, taken := events[m].at, if t0 >= 1.0 then 1.0 else 0.0;
    RunPrefix(events, m + 1, false, rate, burst);
    hide Run;
    assert Run(events[..m + 1], false, rate, burst)[ip] == Level(t0 - taken, at);
    var t := Tokens(Run(events[..m + 1], false, rate, burst), ip, now, rate, burst);
    ElapsedTwice(now, at, at, rate);
    if t != burst {
      assert t == t0 - taken + Times(rate, now - at);
      if t0 == burst {
        assert AllowedIn(events, m, m, ip, false, rate, burst) == 0;
        assert LeftSince(events, m, m + 1, ip, now, t, rate, burst);
      } else {
        var a :| 0 <= a < m && LeftSince(events, a, m, ip, at, t0, rate, burst);
        ElapsedTwice(now, at, events[a].at, rate);
        assert LeftSince(events, a, m + 1, ip, now, t, rate, burst);
      }
    }
  }

  lemma ElapsedTwice(now: real, mid: real, start: real, rate: real)
    ensures Times(rate, now - start) == Times(rate, now - mid) + Times(rate, mid - start)
    ensures Times(now - mid, rate) == Times(rate, now - mid)
  {
  }

  /** The limiter lets a call through exactly when no window that ends with it would then hold more
      than the burst, one at least, plus the rate times its length. */
  lemma AllowedIff(events: seq<Event>, i: nat, ip: string, rateLimit: int, burstLimit: int)
    requires i < |events| && Clocked(events) && rateLimit >= 1 && events[i].Call? && events[i].ip == ip
    ensures var r, burst := rateLimit as real, Capacity(burstLimit);
            AllowedAt(events, i, ip, false, r, burst) <==>
            forall a {:trigger AllowedIn(events, a, i, ip, false, r, burst)} :: 0 <= a <= i ==>
              AllowedIn(events, a, i, ip, false, r, burst) as real + 1.0
                <= (if burstLimit >= 1 then burstLimit as real else 1.0) + Times(r, events[i].at - events[a].at)
  {
    hide Run, Tokens, Times;
    var r, burst := rateLimit as real, Capacity(burstLimit);
    if AllowedAt(events, i, ip, false, r, burst) {
      NeverEvictingWindow(r, burst);
      forall a | 0 <= a <= i
        ensures AllowedIn(events, a, i, ip, false, r, burst) as real + 1.0 <= burst + Times(r, events[i].at - events[a].at)
      {
        assert AllowedIn(events, a, i + 1, ip, false, r, burst) == AllowedIn(events, a, i, ip, false, r, burst) + 1;
      }
    } else {
      SpentSince(events, i, ip, events[i].at, r, burst);
      var t := Tokens(Run(events[..i], false, r, burst), ip, events[i].at, r, burst);
      assert t < 1.0;
      var a :| 0 <= a < i && LeftSince(events, a, i, ip, events[i].at, t, r, burst);
      assert AllowedIn(events, a, i, ip, false, r, burst) as real + 1.0 > burst + Times(r, events[i].at - events[a].at);
    }
  }

  /** Any two calls of ip are at least 1 / rate seconds apart. */
  ghost predicate Spaced(events: seq<Event>, ip: string, rate: real) {
    forall i, j :: 0 <= i < j < |events| && events[i].Call? && events[i].ip == ip && events[j].Call? && events[j].ip == ip ==>
      Times(rate, events[j].at - events[i].at) >= 1.0
  }

  lemma {:induction false} SpacedWindow(events: seq<Event>, a: nat, b: nat, j: nat, ip: string, rate: real, burst: real)
    requires a <= b <= j < |events| && Clocked(events) && Spaced(events, ip, rate) && rate > 0.0
    requires events[j].Call? && events[j].ip == ip
    ensures AllowedIn(events, a, b, ip, false, rate, burst) as real <= Times(rate, events[j].at - events[a].at)
    decreases b
  {
    if a == b {
      MulMonotone(0.0, events[j].at - events[a].at, rate);
      TimesUnits(rate);
    } else if AllowedAt(events, b - 1, ip, false, rate, burst) {
      SpacedWindow(events, a, b - 1, b - 1, ip, rate, burst);
      ElapsedTwice(events[j].at, events[b - 1].at, events[a].at, rate);
    } else {
      SpacedWindow(events, a, b - 1, j, ip, rate, burst);
    }
  }

  /** Calls that keep to the rate are all let through, whatever the other addresses do. */
  lemma SpacedAllowed(events: seq<Event>, i: nat, ip: string, rateLimit: int, burstLimit: int)
    requires i < |events| && Clocked(events) && rateLimit >= 1 && Spaced(events, ip, rateLimit as real)
    requires events[i].Call? && events[i].ip == ip
    ensures AllowedAt(events, i, ip, false, rateLimit as real, Capacity(burstLimit))
  {
    hide Times, Run, AllowedAt, Spaced;
    var r, burst := rateLimit as real, Capacity(burstLimit);
    AllowedIff(events, i, ip, rateLimit, burstLimit);
    forall a | 0 <= a <= i
      ensures AllowedIn(events, a, i, ip, false, r, burst) as real <= Times(r, events[i].at - events[a].at)
    {
      SpacedWindow(events, a, i, i, ip, r, burst);
    }
  }

  // ---------------------------------------------------------------------
  // A denied call is free

  /** No address can tell the two views apart, at any time. */
  ghost predicate SameTokens(view: map<string, Level>, other: map<string, Level>, rate: real, burst: real) {
    forall ip, now :: Tokens(view, ip, now, rate, burst) == Tokens(other, ip, now, rate, burst)
  }

  lemma DeniedKeepsTokens(view: map<string, Level>, ip: string, at: real, rate: real, burst: real)
    requires burst >= 1.0 && !Allows(view, ip, at, rate, burst)
    ensures SameTokens(AfterCall(view, ip, at, rate, burst), view, rate, burst)
  {
    hide Times;
    forall a, now
      ensures Tokens(AfterCall(view, ip, at, rate, burst), a, now, rate, burst) == Tokens(view, a, now, rate, burst)
    {
      if a == ip {
        ElapsedTwice(now, at, view[ip].lastSeen, rate);
        ElapsedTwice(at, view[ip].lastSeen, at, rate);
        ElapsedTwice(now, view[ip].lastSeen, at, rate);
      }
    }
  }

  lemma StepSameTokens(view: map<string, Level>, other: map<string, Level>, e: Event, rate: real, burst: real)
    requires SameTokens(view, other, rate, burst)
    ensures SameTokens(Step(view, e, false, rate, burst), Step(other, e, false, rate, burst), rate, burst)
  {
    hide Times;
    forall ip, now
      ensures Tokens(Step(view, e, false, rate, burst), ip, now, rate, burst)
           == Tokens(Step(other, e, false, rate, burst), ip, now, rate, burst)
    {
      assert Tokens(view, ip, now, rate, burst) == Tokens(other, ip, now, rate, burst);
      if e.Call? {
        assert Tokens(view, e.ip, e.at, rate, burst) == Tokens(other, e.ip, e.at, rate, burst);
      }
    }
  }

  ghost function Dropped(events: seq<Event>, i: nat): (r: seq<Event>)
    requires i < |events|
    ensures |r| == |events| - 1 && forall j :: 0 <= j < |r| ==> r[j] == events[if j < i then j else j + 1]
  {
    events[..i] + events[i + 1..]
  }

  lemma {:induction false} DroppedSameTokens(events: seq<Event>, i: nat, j: nat, rate: real, burst: real)
    requires i < j <= |events| && burst >= 1.0
    requires events[i].Call? && !AllowedAt(events, i, events[i].ip, false, rate, burst)
    ensures SameTokens(Run(events[..j], false, rate, burst), Run(Dropped(events, i)[..j - 1], false, rate, burst), rate, burst)
    decreases j
  {
    hide Run, Step, SameTokens;
    var d := Dropped(events, i);
    RunPrefix(events, j, false, rate, burst);
    if j == i + 1 {
      DeniedStep(Run(events[..i], false, rate, burst), events[i], rate, burst);
      assert d[..i] == events[..i];
    } else {
      DroppedSameTokens(events, i, j - 1, rate, burst);
      RunPrefix(d, j - 1, false, rate, burst);
      assert d[j - 2] == events[j - 1];
      StepSameTokens(Run(events[..j - 1], false, rate, burst), Run(d[..j - 2], false, rate, burst), events[j - 1], rate, burst);
    }
  }

  lemma DeniedStep(view: map<string, Level>, e: Event, rate: real, burst: real)
    requires burst >= 1.0 && e.Call? && !Allows(view, e.ip, e.at, rate, burst)
    ensures SameTokens(Step(view, e, false, rate, burst), view, rate, burst)
  {
    hide SameTokens;
    DeniedKeepsTokens(view, e.ip, e.at, rate, burst);
  }

  /** If call i is denied, leaving it out does not change the answer to event j for ip. */
  ghost predicate FreeIfDenied(events: seq<Event>, i: nat, j: nat, ip: string, evicting: bool, rate: real, burst: real)
    requires i < j < |events|
  {
    events[i].Call? && !AllowedAt(events, i, events[i].ip, evicting, rate, burst) ==>
      (AllowedAt(events, j, ip, evicting, rate, burst) <==> AllowedAt(Dropped(events, i), j - 1, ip, evicting, rate, burst))
  }

  /** Denied calls are free: on no clocked run do they change a later answer. */
  ghost predicate DeniedCallsFree(evicting: bool, rate: real, burst: real) {
    forall events: seq<Event>, i: nat, j: nat, ip: string {:trigger FreeIfDenied(events, i, j, ip, evicting, rate, burst)} ::
      i < j < |events| && Clocked(events) ==> FreeIfDenied(events, i, j, ip, evicting, rate, burst)
  }

  lemma FreeKept(events: seq<Event>, i: nat, j: nat, ip: string, rate: real, burst: real)
    requires i < j < |events| && burst >= 1.0
    ensures FreeIfDenied(events, i, j, ip, false, rate, burst)
  {
    hide Run, Tokens;
    if events[i].Call? && !AllowedAt(events, i, events[i].ip, false, rate, burst) {
      DroppedSameTokens(events, i, j, rate, burst);
      assert Tokens(Run(events[..j], false, rate, burst), ip, events[j].at, rate, burst)
          == Tokens(Run(Dropped(events, i)[..j - 1], false, rate, burst), ip, events[j].at, rate, burst);
    }
  }

  /** Without eviction a denied call is always free. */
  lemma DeniedFree(rate: real, burst: real)
    requires burst >= 1.0
    ensures DeniedCallsFree(false, rate, burst)
  {
    hide FreeIfDenied, Clocked;
    forall events: seq<Event>, i: nat, j: nat, ip: string | i < j < |events| && Clocked(events)
      ensures FreeIfDenied(events, i, j, ip, false, rate, burst)
    {
      FreeKept(events, i, j, ip, rate, burst);
    }
  }

  lemma FreeEvicted(events: seq<Event>, i: nat, j: nat, ip: string, rate: real, burst: real)
    requires i < j < |events| && Clocked(events) && rate > 0.0 && 1.0 <= burst <= Times(IDLE, rate)
    ensures FreeIfDenied(events, i, j, ip, true, rate, burst)
  {
    hide AllowedAt, Times;
    if events[i].Call? {
      FreeKept(events, i, j, ip, rate, burst);
      EvictionUnseen(events, i, events[i].ip, rate, burst);
      EvictionUnseen(events, j, ip, rate, burst);
      EvictionUnseen(Dropped(events, i), j - 1, ip, rate, burst);
    }
  }

  lemma DeniedFreeEvicting(rate: real, burst: real)
    requires rate > 0.0 && 1.0 <= burst <= Times(IDLE, rate)
    ensures DeniedCallsFree(true, rate, burst)
  {
    hide FreeIfDenied, Clocked;
    forall events: seq<Event>, i: nat, j: nat, ip: string | i < j < |events| && Clocked(events)
      ensures FreeIfDenied(events, i, j, ip, true, rate, burst)
    {
      FreeEvicted(events, i, j, ip, rate, burst);
    }
  }

  // ---------------------------------------------------------------------
  // A burst that does not refill within the idle limit

  ghost function Calls(ip: string, at: real, n: nat): (r: seq<Event>)
    ensures |r| == n && forall i :: 0 <= i < n ==> r[i] == Call(ip, at)
  {
    seq(n, i => Call(ip, at))
  }

  lemma {:induction false} CountOfPrefix(events: seq<Event>, n: nat, b: nat, ip: string, evicting: bool, rate: real, burst: real)
    requires b <= n <= |events|
    ensures AllowedIn(events, 0, b, ip, evicting, rate, burst) == AllowedIn(events[..n], 0, b, ip, evicting, rate, burst)
  {
    if b > 0 {
      CountOfPrefix(events, n, b - 1, ip, evicting, rate, burst);
      assert events[..n][..b - 1] == events[..b - 1];
    }
  }

  /** While whole tokens are left, calls at one moment are let through, one token each. */
  lemma {:induction false} Spend(events: seq<Event>, ip: string, at: real, n: nat, t: real, evicting: bool, rate: real, burst: real)
    requires Tokens(Run(events, evicting, rate, burst), ip, at, rate, burst) == t && n as real <= t <= burst
    ensures var all := events + Calls(ip, at, n);
            && Tokens(Run(all, evicting, rate, burst), ip, at, rate, burst) == t - n as real
            && AllowedIn(all, 0, |all|, ip, evicting, rate, burst) == AllowedIn(events, 0, |events|, ip, evicting, rate, burst) + n
            && (n > 0 ==> Run(all, evicting, rate, burst)
                            == Run(events, evicting, rate, burst)[ip := Level(t - n as real, at)])
  {
    hide Run, Tokens;
    var all := events + Calls(ip, at, n);
    if n == 0 {
      assert all == events;
    } else {
      Spend(events, ip, at, n - 1, t, evicting, rate, burst);
      var before := events + Calls(ip, at, n - 1);
      SpendOne(before, ip, at, t - (n - 1) as real, evicting, rate, burst);
      assert all == before + [Call(ip, at)];
    }
  }

  lemma SpendOne(events: seq<Event>, ip: string, at: real, t: real, evicting: bool, rate: real, burst: real)
    requires Tokens(Run(events, evicting, rate, burst), ip, at, rate, burst) == t && 1.0 <= t <= burst
    ensures var all := events + [Call(ip, at)];
            && Run(all, evicting, rate, burst) == Run(events, evicting, rate, burst)[ip := Level(t - 1.0, at)]
            && Tokens(Run(all, evicting, rate, burst), ip, at, rate, burst) == t - 1.0
            && AllowedIn(all, 0, |all|, ip, evicting, rate, burst) == AllowedIn(events, 0, |events|, ip, evicting, rate, burst) + 1
  {
    var all := events + [Call(ip, at)];
    assert all[..|events|] == events && all[..|all| - 1] == events;
    TimesUnits(rate);
    assert Times(at - at, rate) == 0.0;
    CountOfPrefix(all, |events|, |events|, ip, evicting, rate, burst);
  }

  /** Spend the whole burst, wait for an eviction, and come back at once. */
  ghost function ComeBack(ip: string, full: nat, later: real): seq<Event> {
    Calls(ip, 0.0, full) + [Cleanup(later)]
  }

  lemma AfterComeBack(ip: string, full: nat, evicting: bool, later: real, rate: real)
    requires full >= 1 && later > IDLE
    ensures var events := ComeBack(ip, full, later);
            && Run(events, evicting, rate, full as real) == (if evicting then map[] else map[ip := Level(0.0, 0.0)])
            && AllowedIn(events, 0, |events|, ip, evicting, rate, full as real) == full
  {
    var burst, calls, events := full as real, Calls(ip, 0.0, full), ComeBack(ip, full, later);
    Spend([], ip, 0.0, full, burst, evicting, rate, burst);
    assert [] + calls == calls && events[..full] == calls;
    CountOfPrefix(events, full, full, ip, evicting, rate, burst);
    var spent := Run(calls, evicting, rate, burst);
    assert spent == map[ip := Level(0.0, 0.0)];
    assert AfterCleanup(spent, later) == map[];
  }

  /** The run on which the answers part. */
  lemma ComeBackParts(ip: string, full: nat, rate: nat)
    requires rate >= 1 && full > 300 * rate
    ensures !EvictionHarmless(rate as real, full as real) && !WindowBound(true, rate as real, full as real)
  {
    hide AllowedIn, AllowedAt, Clocked, ComeBack;
    var r, burst, n := rate as real, full as real, 300 * rate;
    var half := Quotient(0.5, r);
    if half <= 0.0 {
      MulMonotone(0.0, -half, r);
    }
    var later := IDLE + half;
    TimesDistributes(r, IDLE, half);
    assert Times(r, later) == n as real + 0.5;
    var start := ComeBack(ip, full, later);
    var events := start + Calls(ip, later, n + 1);
    ComeBackClocked(ip, full, later, n + 1);
    ComeBackEvicted(ip, full, later, n, r);
    ComeBackKept(ip, full, later, n, r);
    assert events[|events| - 1] == Call(ip, later);
  }

  lemma ComeBackClocked(ip: string, full: nat, later: real, n: nat)
    requires full >= 1 && later > IDLE
    ensures Clocked(ComeBack(ip, full, later) + Calls(ip, later, n)) && ComeBack(ip, full, later)[0].at == 0.0
  {
  }

  lemma ComeBackEvicted(ip: string, full: nat, later: real, n: nat, rate: real)
    requires full > n && later > IDLE
    ensures var events := ComeBack(ip, full, later) + Calls(ip, later, n + 1);
            && AllowedAt(events, |events| - 1, ip, true, rate, full as real)
            && AllowedIn(events, 0, |events|, ip, true, rate, full as real) == full + n + 1
  {
    hide Run, AllowedIn, Tokens, ComeBack;
    var start, burst := ComeBack(ip, full, later), full as real;
    var events := start + Calls(ip, later, n + 1);
    AfterComeBack(ip, full, true, later, rate);
    NewIsFull(ip, later, rate, burst);
    Spend(start, ip, later, n + 1, burst, true, rate, burst);
    Spend(start, ip, later, n, burst, true, rate, burst);
    assert events[..|events| - 1] == start + Calls(ip, later, n) && events[|events| - 1] == Call(ip, later);
  }

  lemma NewIsFull(ip: string, now: real, rate: real, burst: real)
    ensures Tokens(map[], ip, now, rate, burst) == burst
  {
  }

  lemma ComeBackKept(ip: string, full: nat, later: real, n: nat, rate: real)
    requires full > n && later > IDLE && Times(rate, later) == n as real + 0.5
    ensures var events := ComeBack(ip, full, later) + Calls(ip, later, n + 1);
            !AllowedAt(events, |events| - 1, ip, false, rate, full as real)
  {
    hide Run, AllowedIn, Tokens, ComeBack;
    var start, burst := ComeBack(ip, full, later), full as real;
    var events := start + Calls(ip, later, n + 1);
    AfterComeBack(ip, full, false, later, rate);
    RefillOf(ip, later, n as real + 0.5, rate, burst);
    Spend(start, ip, later, n, n as real + 0.5, false, rate, burst);
    assert events[..|events| - 1] == start + Calls(ip, later, n) && events[|events| - 1] == Call(ip, later);
  }

  lemma RefillOf(ip: string, now: real, t: real, rate: real, burst: real)
    requires Times(rate, now) == t <= burst
    ensures Tokens(map[ip := Level(0.0, 0.0)], ip, now, rate, burst) == t
  {
    assert Times(now - 0.0, rate) == Times(rate, now);
  }

  /** Spend the burst, be denied once a little later, and come back after the next cleanup. */
  ghost function DeniedBetween(ip: string, full: nat, s: real, later: real): seq<Event> {
    Calls(ip, 0.0, full) + [Call(ip, s), Cleanup(later)]
  }

  /** An empty bucket half refilled: denied, and seen too late to be evicted. */
  lemma HalfRefilled(ip: string, s: real, later: real, rate: real, burst: real)
    requires later - IDLE <= s && Times(rate, s) == 0.5 && burst >= 1.0
    ensures var empty := map[ip := Level(0.0, 0.0)];
            && !Allows(empty, ip, s, rate, burst)
            && AfterCall(empty, ip, s, rate, burst) == map[ip := Level(0.5, s)]
    ensures AfterCleanup(map[ip := Level(0.5, s)], later) == map[ip := Level(0.5, s)]
  {
    assert Times(s - 0.0, rate) == Times(rate, s);
  }

  lemma AfterDenied(ip: string, full: nat, s: real, later: real, rate: real)
    requires full >= 1 && later - IDLE <= s <= later && Times(rate, s) == 0.5
    ensures var events, burst := DeniedBetween(ip, full, s, later), full as real;
            && !AllowedAt(events, full, ip, true, rate, burst)
            && Run(events, true, rate, burst) == map[ip := Level(0.5, s)]
  {
    hide AfterCall, AfterCleanup, Allows;
    var burst, calls, events := full as real, Calls(ip, 0.0, full), DeniedBetween(ip, full, s, later);
    NewIsFull(ip, 0.0, rate, burst);
    Spend([], ip, 0.0, full, burst, true, rate, burst);
    hide Run, Tokens;
    assert [] + calls == calls && events[..full] == calls;
    assert Run(calls, true, rate, burst) == map[ip := Level(0.0, 0.0)];
    HalfRefilled(ip, s, later, rate, burst);
    RunAppend(calls, Call(ip, s), true, rate, burst);
    RunAppend(calls + [Call(ip, s)], Cleanup(later), true, rate, burst);
    assert calls + [Call(ip, s)] + [Cleanup(later)] == events;
  }

  lemma DeniedKeepsFromEviction(ip: string, full: nat, s: real, later: real, n: nat, rate: real)
    requires full > n && later - IDLE <= s <= later && Times(rate, s) == 0.5 && Times(rate, later) == n as real + 0.25
    ensures var events := DeniedBetween(ip, full, s, later) + Calls(ip, later, n + 1);
            !AllowedAt(events, |events| - 1, ip, true, rate, full as real)
  {
    hide Run, AllowedIn, Tokens, DeniedBetween;
    var start, burst := DeniedBetween(ip, full, s, later), full as real;
    var events := start + Calls(ip, later, n + 1);
    AfterDenied(ip, full, s, later, rate);
    RefillFrom(ip, s, later, n as real + 0.25, rate, burst);
    Spend(start, ip, later, n, n as real + 0.25, true, rate, burst);
    assert events[..|events| - 1] == start + Calls(ip, later, n) && events[|events| - 1] == Call(ip, later);
  }

  lemma RefillFrom(ip: string, s: real, now: real, t: real, rate: real, burst: real)
    requires Times(rate, now) == t <= burst && Times(rate, s) == 0.5
    ensures Tokens(map[ip := Level(0.5, s)], ip, now, rate, burst) == t
  {
    assert Times(now - s, rate) == Times(rate, now) - Times(rate, s);
  }

  /** With a larger burst a denied call is not free: it keeps its bucket from being evicted, and
      with it from starting over full. */
  lemma DeniedCosts(ip: string, full: nat, rate: nat)
    requires rate >= 1 && full > 300 * rate
    ensures !DeniedCallsFree(true, rate as real, full as real)
  {
    hide AllowedIn, AllowedAt, Run;
    var r, burst, n := rate as real, full as real, 300 * rate;
    var q := Quotient(0.25, r);
    if q <= 0.0 {
      MulMonotone(0.0, -q, r);
    }
    var s, later := q + q, IDLE + q;
    TimesDistributes(r, IDLE, q);
    TimesDistributes(r, q, q);
    if s > later {
      MulMonotone(IDLE, q, r);
    }
    var events := DeniedBetween(ip, full, s, later) + Calls(ip, later, n + 1);
    var come := ComeBack(ip, full, later) + Calls(ip, later, n + 1);
    assert Dropped(events, full) == come;
    AfterDenied(ip, full, s, later, r);
    SamePrefixAllowed(DeniedBetween(ip, full, s, later), events, full, ip, r, burst);
    ComeBackEvicted(ip, full, later, n, r);
    DeniedKeepsFromEviction(ip, full, s, later, n, r);
    assert Clocked(events);
    assert !FreeIfDenied(events, full, |events| - 1, ip, true, r, burst);
  }

  lemma SamePrefixAllowed(events: seq<Event>, longer: seq<Event>, i: nat, ip: string, rate: real, burst: real)
    requires i < |events| && events <= longer
    ensures AllowedAt(events, i, ip, true, rate, burst) <==> AllowedAt(longer, i, ip, true, rate, burst)
  {
    assert events[..i] == longer[..i];
  }

  /** Eviction changes no answer, keeps the budget of every window and leaves denied calls free,
      each exactly when the burst refills within the idle limit. */
  lemma EvictionHarmlessIff(rateLimit: int, burstLimit: int)
    requires rateLimit >= 1
    ensures EvictionHarmless(rateLimit as real, Capacity(burstLimit)) <==> Capacity(burstLimit) <= IDLE * rateLimit as real
    ensures WindowBound(true, rateLimit as real, Capacity(burstLimit)) <==> Capacity(burstLimit) <= IDLE * rateLimit as real
    ensures DeniedCallsFree(true, rateLimit as real, Capacity(burstLimit)) <==> Capacity(burstLimit) <= IDLE * rateLimit as real
  {
    hide EvictionHarmless, WindowBound, DeniedCallsFree;
    var r, burst := rateLimit as real, Capacity(burstLimit);
    assert Times(IDLE, r) == IDLE * r;
    if burst <= IDLE * r {
      HarmlessWithin(r, burst);
      DeniedFreeEvicting(r, burst);
    } else {
      var full := if burstLimit < 1 then 1 else burstLimit;
      ComeBackParts("", full, rateLimit);
      DeniedCosts("", full, rateLimit);
    }
  }

  lemma HarmlessWithin(rate: real, burst: real)
    requires rate > 0.0 && 1.0 <= burst <= Times(IDLE, rate)
    ensures EvictionHarmless(rate, burst) && WindowBound(true, rate, burst)
  {
    forall events: seq<Event>, i: nat, ip: string | i < |events| && Clocked(events)
      ensures AllowedAt(events, i, ip, true, rate, burst) <==> AllowedAt(events, i, ip, false, rate, burst)
    {
      EvictionUnseen(events, i, ip, rate, burst);
    }
    NeverEvictingWindow(rate, burst);
    forall events: seq<Event>, a: nat, b: nat, ip: string | a < b <= |events| && Clocked(events)
      ensures AllowedIn(events, a, b, ip, true, rate, burst) as real <= burst + Times(rate, events[b - 1].at - events[a].at)
    {
      SameCount(events, a, b, ip, rate, burst);
    }
  }
}
