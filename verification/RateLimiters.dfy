/** The two sliding-window limiters - the telemetry server's deques and the web
    application's lists - against the full history of accepted requests. */
module RateLimiters {

  const WINDOW := 60.0
  const MAX_ADDRESSES := 10_000

  // ----- the specification

  /** The hits that are younger than the window at `now`. */
  function Recent(hits: seq<real>, now: real): seq<real> {
    if hits == [] then []
    else (if now - hits[0] < WINDOW then [hits[0]] else []) + Recent(hits[1..], now)
  }

  /** All accepted hits of every address, never forgotten. */
  type Log = map<string, seq<real>>

  function Hits(log: Log, address: string): seq<real> {
    if address in log then log[address] else []
  }

  /** A request is accepted while fewer than `limit` accepted hits of its address are
      younger than the window. */
  predicate Accepts(log: Log, address: string, now: real, limit: int) {
    |Recent(Hits(log, address), now)| < limit
  }

  function Logged(log: Log, address: string, now: real, limit: int): Log {
    if Accepts(log, address, now, limit) then log[address := Hits(log, address) + [now]] else log
  }

  predicate Sorted(hits: seq<real>, clock: real) {
    && (forall i, j :: 0 <= i < j < |hits| ==> hits[i] <= hits[j])
    && (forall i :: 0 <= i < |hits| ==> hits[i] <= clock)
  }

  ghost predicate WellFormed(log: Log, clock: real) {
    forall a :: a in log ==> Sorted(log[a], clock)
  }

  // ----- what may be forgotten

  lemma {:induction false} RecentConcat(a: seq<real>, b: seq<real>, now: real)
    ensures Recent(a + b, now) == Recent(a, now) + Recent(b, now)
    decreases |a|
  {
    if a == [] {
      assert a + b == b;
    } else {
      assert (a + b)[1..] == a[1..] + b;
      RecentConcat(a[1..], b, now);
    }
  }

  /** What has aged out stays out. */
  lemma {:induction false} RecentLater(hits: seq<real>, now: real, later: real)
    requires now <= later
    ensures Recent(Recent(hits, now), later) == Recent(hits, later)
    decreases |hits|
  {
    if hits != [] {
      RecentLater(hits[1..], now, later);
      if now - hits[0] < WINDOW {
        assert Recent(hits, now)[1..] == Recent(hits[1..], now);
      } else {
        assert Recent(hits, now) == Recent(hits[1..], now);
      }
    }
  }

  lemma {:induction false} RecentAll(hits: seq<real>, now: real)
    requires forall i :: 0 <= i < |hits| ==> now - hits[i] < WINDOW
    ensures Recent(hits, now) == hits
    decreases |hits|
  {
    if hits != [] {
      RecentAll(hits[1..], now);
      assert [hits[0]] + hits[1..] == hits;
    }
  }

  lemma {:induction false} RecentNone(hits: seq<real>, now: real)
    ensures Recent(hits, now) == [] <==> forall i :: 0 <= i < |hits| ==> now - hits[i] >= WINDOW
    decreases |hits|
  {
    if hits != [] {
      RecentNone(hits[1..], now);
      assert forall i :: 1 <= i < |hits| ==> hits[i] == hits[1..][i - 1];
    }
  }

  /** Of hits in order, some is recent exactly when the last one is. */
  lemma RecentLast(hits: seq<real>, now: real)
    requires Sorted(hits, now)
    ensures Recent(hits, now) != [] <==> hits != [] && now - hits[|hits| - 1] < WINDOW
  {
    RecentNone(hits, now);
  }

  /** What a limiter keeps for an address stands for the full list of its hits. */
  ghost predicate StandsFor(kept: seq<real>, all: seq<real>, clock: real) {
    Recent(kept, clock) == Recent(all, clock)
  }

  lemma StandsForLater(kept: seq<real>, all: seq<real>, clock: real, later: real)
    requires StandsFor(kept, all, clock) && clock <= later
    ensures StandsFor(kept, all, later)
  {
    RecentLater(kept, clock, later);
    RecentLater(all, clock, later);
  }

  lemma StandsForRecent(kept: seq<real>, all: seq<real>, now: real)
    requires StandsFor(kept, all, now)
    ensures StandsFor(Recent(kept, now), all, now)
  {
    RecentLater(kept, now, now);
  }

  lemma StandsForAppend(kept: seq<real>, all: seq<real>, now: real)
    requires StandsFor(kept, all, now)
    ensures StandsFor(kept + [now], all + [now], now)
  {
    RecentConcat(kept, [now], now);
    RecentConcat(all, [now], now);
  }

  ghost predicate StandsAt(hits: map<string, seq<real>>, log: Log, clock: real, a: string) {
    StandsFor(Hits(hits, a), Hits(log, a), clock)
  }

  /** A whole table stands for the log: an address without an entry has only old hits. */
  ghost predicate Represents(hits: map<string, seq<real>>, log: Log, clock: real) {
    forall a :: StandsAt(hits, log, clock, a)
  }

  lemma RepresentsLater(hits: map<string, seq<real>>, log: Log, clock: real, later: real)
    requires Represents(hits, log, clock) && clock <= later
    ensures Represents(hits, log, later)
  {
    forall a ensures StandsAt(hits, log, later, a) {
      assert StandsAt(hits, log, clock, a);
      StandsForLater(Hits(hits, a), Hits(log, a), clock, later);
    }
  }

  /** Only one address's entry changes. */
  lemma RepresentsUpdate(hits: map<string, seq<real>>, log: Log, now: real, a: string, kept: seq<real>, all: seq<real>)
    requires Represents(hits, log, now) && StandsFor(kept, all, now)
    ensures Represents(hits[a := kept], log[a := all], now)
  {
    var hits2, log2 := hits[a := kept], log[a := all];
    forall b ensures StandsAt(hits2, log2, now, b) {
      assert StandsAt(hits, log, now, b);
    }
  }

  lemma RepresentsKept(hits: map<string, seq<real>>, log: Log, now: real, a: string, kept: seq<real>)
    requires Represents(hits, log, now) && StandsFor(kept, Hits(log, a), now)
    ensures Represents(hits[a := kept], log, now)
  {
    var hits2 := hits[a := kept];
    forall b ensures StandsAt(hits2, log, now, b) {
      assert StandsAt(hits, log, now, b);
    }
  }

  /** Some hit of the address was accepted less than a minute ago. */
  predicate HeardOf(log: Log, address: string, now: real) {
    Recent(Hits(log, address), now) != []
  }

  predicate OnlyHeardOf(addresses: set<string>, log: Log, now: real) {
    forall a :: a in addresses ==> HeardOf(log, a, now)
  }

  lemma HeardOfStored(hits: map<string, seq<real>>, log: Log, now: real)
    requires Represents(hits, log, now)
    ensures forall a :: a in hits ==> (Recent(hits[a], now) != [] <==> HeardOf(log, a, now))
  {
    forall a | a in hits ensures Recent(hits[a], now) != [] <==> HeardOf(log, a, now) {
      assert StandsAt(hits, log, now, a);
    }
  }

  /** Entries without a recent hit may be dropped. */
  lemma RepresentsPruned(hits: map<string, seq<real>>, pruned: map<string, seq<real>>, log: Log, now: real)
    requires Represents(hits, log, now)
    requires forall a :: a in pruned ==> a in hits && pruned[a] == hits[a]
    requires forall a :: a in hits ==> (a in pruned <==> Recent(hits[a], now) != [])
    ensures Represents(pruned, log, now)
    ensures forall a :: a in pruned <==> a in hits && HeardOf(log, a, now)
  {
    HeardOfStored(hits, log, now);
    forall a ensures StandsAt(pruned, log, now, a) {
      assert StandsAt(hits, log, now, a);
    }
  }

  lemma SortedAppend(hits: seq<real>, now: real)
    requires Sorted(hits, now)
    ensures Sorted(hits + [now], now)
  {
  }

  /** One more accepted hit, in the log and in what is kept for its address. */
  lemma Accepted(hits: map<string, seq<real>>, log: Log, now: real, a: string, kept: seq<real>)
    requires Represents(hits, log, now) && WellFormed(log, now) && StandsFor(kept, Hits(log, a), now)
    ensures Represents(hits[a := kept + [now]], log[a := Hits(log, a) + [now]], now)
    ensures WellFormed(log[a := Hits(log, a) + [now]], now)
  {
    StandsForAppend(kept, Hits(log, a), now);
    RepresentsUpdate(hits, log, now, a, kept + [now], Hits(log, a) + [now]);
    SortedAppend(Hits(log, a), now);
  }

  lemma Later(hits: map<string, seq<real>>, log: Log, clock: real, now: real)
    requires Represents(hits, log, clock) && WellFormed(log, clock) && clock <= now
    ensures Represents(hits, log, now) && WellFormed(log, now)
  {
    RepresentsLater(hits, log, clock, now);
  }

  // ----- the telemetry server's limiter

  class MinuteLimiter {
    const limit: int
    var hits: map<string, seq<real>>
    ghost var log: Log
    ghost var clock: real

    ghost predicate Valid()
      reads this
    {
      && Represents(hits, log, clock) && WellFormed(log, clock)
      && (forall a :: a in hits ==> Sorted(hits[a], clock))
    }

    constructor (limit: int, ghost start: real)
      ensures Valid() && this.limit == limit && log == map[] && clock == start
    {
      this.limit := limit;
      hits, log, clock := map[], map[], start;
    }

    /** `allow`: the popping and the garbage collection do not change a decision. */
    method Allow(address: string, now: real) returns (ok: bool)
      requires Valid() && clock <= now
      modifies this
      ensures Valid() && clock == now
      ensures ok == Accepts(old(log), address, now, limit)
      ensures log == Logged(old(log), address, now, limit)
      ensures ok ==> |hits| <= MAX_ADDRESSES || OnlyHeardOf(hits.Keys, log, now)
    {
      Tick(now);
      PopOld(address, now);
      if |hits[address]| >= limit { return false; }
      Append(address, now);
      if |hits| > MAX_ADDRESSES { Collect(now); }
      return true;
    }

    ghost method Tick(now: real)
      requires Valid() && clock <= now
      modifies this`clock
      ensures Valid() && clock == now
    {
      Later(hits, log, clock, now);
      clock := now;
    }

    /** The loop that pops expired hits, after `self._hits[address]` made an entry. */
    method PopOld(address: string, now: real)
      requires Valid() && clock == now
      modifies this`hits
      ensures Valid() && address in hits && hits[address] == Recent(Hits(log, address), now)
    {
      var kept := Hits(hits, address);
      while kept != [] && now - kept[0] >= WINDOW
        invariant Sorted(kept, now) && Recent(kept, now) == Recent(Hits(hits, address), now)
      {
        kept := kept[1..];
      }
      RecentAll(kept, now);
      assert StandsAt(hits, log, now, address);
      RepresentsKept(hits, log, now, address, kept);
      hits := hits[address := kept];
    }

    method Append(address: string, now: real)
      requires Valid() && clock == now && address in hits
      modifies this`hits, this`log
      ensures Valid() && hits == old(hits)[address := old(hits)[address] + [now]]
      ensures log == old(log)[address := Hits(old(log), address) + [now]]
    {
      assert StandsAt(hits, log, now, address);
      Accepted(hits, log, now, address, hits[address]);
      SortedAppend(hits[address], now);
      hits := hits[address := hits[address] + [now]];
      log := log[address := Hits(log, address) + [now]];
    }

    /** The garbage collection: exactly the addresses stay that were accepted within the
        last minute, with their hits. */
    method Collect(now: real)
      requires Valid() && clock == now
      modifies this`hits
      ensures Valid()
      ensures forall a :: a in hits <==> a in old(hits) && HeardOf(log, a, now)
      ensures forall a :: a in hits ==> hits[a] == old(hits)[a]
    {
      var pruned := map a | a in hits && hits[a] != [] && now - hits[a][|hits[a]| - 1] < WINDOW :: hits[a];
      forall a | a in hits ensures a in pruned <==> Recent(hits[a], now) != [] {
        RecentLast(hits[a], now);
      }
      RepresentsPruned(hits, pruned, log, now);
      hits := pruned;
    }
  }

  // ----- the web application's middleware

  class RateLimitMiddleware {
    var store: map<string, seq<real>>
    ghost var log: Log
    ghost var clock: real

    ghost predicate Valid()
      reads this
    {
      Represents(store, log, clock) && WellFormed(log, clock)
    }

    constructor (ghost start: real)
      ensures Valid() && log == map[] && clock == start
    {
      store, log, clock := map[], map[], start;
    }

    /** `_prune_rate_limit_store`: exactly the addresses stay that were accepted within
        the last minute, with their hits. */
    method Prune(now: real)
      requires Valid() && clock == now
      modifies this`store
      ensures Valid()
      ensures forall a :: a in store <==> a in old(store) && HeardOf(log, a, now)
      ensures forall a :: a in store ==> store[a] == old(store)[a]
    {
      var pruned := map a | a in store && Recent(store[a], now) != [] :: store[a];
      RepresentsPruned(store, pruned, log, now);
      store := pruned;
    }

    /** `rate_limit_middleware` with the limit in force; a limit that is not positive
        switches it off. */
    method Handle(ip: string, now: real, limit: int) returns (ok: bool)
      requires Valid() && clock <= now
      modifies this
      ensures Valid() && clock == now
      ensures ok == (limit <= 0 || Accepts(old(log), ip, now, limit))
      ensures log == if limit <= 0 then old(log) else Logged(old(log), ip, now, limit)
      ensures limit > 0 ==> |store| <= MAX_ADDRESSES + 1 || OnlyHeardOf(store.Keys - {ip}, log, now)
    {
      Later(store, log, clock, now);
      clock := now;
      if limit <= 0 { return true; }
      if |store| > MAX_ADDRESSES { Prune(now); }
      ok := Serve(ip, now, limit);
    }

    /** The part of `rate_limit_middleware` behind the pruning. */
    method Serve(ip: string, now: real, limit: int) returns (ok: bool)
      requires Valid() && clock == now && limit > 0
      modifies this`store, this`log
      ensures Valid() && store.Keys == old(store).Keys + {ip}
      ensures ok == Accepts(old(log), ip, now, limit) && log == Logged(old(log), ip, now, limit)
    {
      var window := Recent(Hits(store, ip), now);
      assert StandsAt(store, log, now, ip);
      StandsForRecent(Hits(store, ip), Hits(log, ip), now);
      if |window| >= limit {
        RepresentsKept(store, log, now, ip, window);
        store := store[ip := window];
        return false;
      }
      Accepted(store, log, now, ip, window);
      store := store[ip := window + [now]];
      log := log[ip := Hits(log, ip) + [now]];
      return true;
    }
  }

  // ----- traces

  datatype Request = Request(address: string, now: real)

  predicate Ordered(trace: seq<Request>, start: real) {
    && (forall i, j :: 0 <= i < j < |trace| ==> trace[i].now <= trace[j].now)
    && (forall i :: 0 <= i < |trace| ==> start <= trace[i].now)
  }

  /** The log after a trace, and the decision for each request. */
  function LogOf(trace: seq<Request>, limit: int): Log {
    if trace == [] then map[]
    else
      var last := trace[|trace| - 1];
      Logged(LogOf(trace[..|trace| - 1], limit), last.address, last.now, limit)
  }

  function Decisions(trace: seq<Request>, limit: int): seq<bool> {
    if trace == [] then []
    else
      var before, last := trace[..|trace| - 1], trace[|trace| - 1];
      Decisions(before, limit) + [Accepts(LogOf(before, limit), last.address, last.now, limit)]
  }

  /** The telemetry server's limiter decides every trace by the full history. */
  method ServeMinute(trace: seq<Request>, limit: int, start: real) returns (oks: seq<bool>)
    requires Ordered(trace, start)
    ensures oks == Decisions(trace, limit)
  {
    var limiter := new MinuteLimiter(limit, start);
    oks := [];
    for i := 0 to |trace|
      invariant limiter.Valid() && limiter.limit == limit
      invariant limiter.clock == start || (i > 0 && limiter.clock == trace[i - 1].now)
      invariant limiter.log == LogOf(trace[..i], limit) && oks == Decisions(trace[..i], limit)
    {
      assert trace[..i + 1][..i] == trace[..i];
      var ok := limiter.Allow(trace[i].address, trace[i].now);
      oks := oks + [ok];
    }
    assert trace[..|trace|] == trace;
  }

  /** The middleware decides every trace by the full history, when it is switched on. */
  method ServeWeb(trace: seq<Request>, limit: int, start: real) returns (oks: seq<bool>)
    requires Ordered(trace, start)
    ensures if limit > 0 then oks == Decisions(trace, limit)
            else |oks| == |trace| && forall i :: 0 <= i < |oks| ==> oks[i]
  {
    var middleware := new RateLimitMiddleware(start);
    oks := [];
    for i := 0 to |trace|
      invariant middleware.Valid()
      invariant middleware.clock == start || (i > 0 && middleware.clock == trace[i - 1].now)
      invariant limit > 0 ==> middleware.log == LogOf(trace[..i], limit) && oks == Decisions(trace[..i], limit)
      invariant limit <= 0 ==> |oks| == i && forall j :: 0 <= j < i ==> oks[j]
    {
      assert trace[..i + 1][..i] == trace[..i];
      var ok := middleware.Handle(trace[i].address, trace[i].now, limit);
      oks := oks + [ok];
    }
    assert trace[..|trace|] == trace;
  }

  lemma {:induction false} RefusesAll(trace: seq<Request>, limit: int)
    requires limit <= 0
    ensures |Decisions(trace, limit)| == |trace|
    ensures forall i :: 0 <= i < |trace| ==> !Decisions(trace, limit)[i]
    decreases |trace|
  {
    if trace != [] { RefusesAll(trace[..|trace| - 1], limit); }
  }

  /** Both limiters decide a trace the same if and only if the limit is positive or
      there is no request. */
  method ServeBoth(trace: seq<Request>, limit: int, start: real) returns (minute: seq<bool>, web: seq<bool>)
    requires Ordered(trace, start)
    ensures minute == web <==> limit > 0 || trace == []
  {
    minute := ServeMinute(trace, limit, start);
    web := ServeWeb(trace, limit, start);
    if limit <= 0 && trace != [] {
      RefusesAll(trace, limit);
      assert !minute[0] && web[0];
    }
  }

  // ----- the decisions by counting requests

  /** The accepted requests of the address less than a minute before `now`. */
  ghost function AcceptedWithin(trace: seq<Request>, limit: int, address: string, now: real): set<nat> {
    set j: nat | j < |trace| && CountsFor(trace, limit, address, now, j)
  }

  ghost predicate CountsFor(trace: seq<Request>, limit: int, address: string, now: real, j: nat) {
    j < |trace| && AcceptedAt(trace, limit, j) && trace[j].address == address && now - trace[j].now < 60.0
  }

  ghost predicate AcceptedAt(trace: seq<Request>, limit: int, j: nat) {
    j < |Decisions(trace, limit)| && Decisions(trace, limit)[j]
  }

  lemma {:induction false} DecisionsLength(trace: seq<Request>, limit: int)
    ensures |Decisions(trace, limit)| == |trace|
    decreases |trace|
  {
    if trace != [] { DecisionsLength(trace[..|trace| - 1], limit); }
  }

  lemma DecisionsBefore(trace: seq<Request>, limit: int)
    requires trace != []
    ensures var n, before := |trace| - 1, trace[..|trace| - 1];
      && (AcceptedAt(trace, limit, n) <==> Accepts(LogOf(before, limit), trace[n].address, trace[n].now, limit))
      && (forall j: nat :: j < n ==> AcceptedAt(trace, limit, j) == AcceptedAt(before, limit, j))
  {
    DecisionsLength(trace[..|trace| - 1], limit);
  }

  lemma WithinStep(trace: seq<Request>, limit: int, address: string, now: real)
    requires trace != []
    ensures |AcceptedWithin(trace, limit, address, now)| ==
      |AcceptedWithin(trace[..|trace| - 1], limit, address, now)|
      + (if CountsFor(trace, limit, address, now, |trace| - 1) then 1 else 0)
  {
    var n: nat := |trace| - 1;
    forall j: nat | j < n ensures CountsFor(trace, limit, address, now, j) ==
                                  CountsFor(trace[..n], limit, address, now, j) {
      DecisionsBefore(trace, limit);
    }
    OneMoreIndex(AcceptedWithin(trace, limit, address, now), AcceptedWithin(trace[..n], limit, address, now), n);
  }

  lemma OneMoreIndex(longer: set<nat>, shorter: set<nat>, n: nat)
    requires n !in shorter && forall j: nat :: j in longer ==> j <= n
    requires forall j: nat :: j < n ==> (j in longer <==> j in shorter)
    requires forall j: nat :: j in shorter ==> j < n
    ensures |longer| == |shorter| + (if n in longer then 1 else 0)
  {
    assert longer == shorter + (if n in longer then {n} else {});
  }

  lemma {:induction false} RecentCounts(trace: seq<Request>, limit: int, address: string, now: real)
    ensures |Recent(Hits(LogOf(trace, limit), address), now)| == |AcceptedWithin(trace, limit, address, now)|
    decreases |trace|
  {
    if trace == [] {
      assert AcceptedWithin(trace, limit, address, now) == {};
    } else {
      var before, last := trace[..|trace| - 1], trace[|trace| - 1];
      RecentCounts(before, limit, address, now);
      WithinStep(trace, limit, address, now);
      DecisionsBefore(trace, limit);
      RecentConcat(Hits(LogOf(before, limit), address), [last.now], now);
      assert [last.now][1..] == [];
    }
  }

  /** The decision for each request of a trace, told from the trace and the decisions
      before it alone: accepted exactly when fewer than `limit` requests of its address
      were accepted less than a minute before. */
  lemma {:induction false} DecisionMeans(trace: seq<Request>, limit: int, i: nat)
    requires i < |trace|
    ensures AcceptedAt(trace, limit, i) <==>
      |AcceptedWithin(trace[..i], limit, trace[i].address, trace[i].now)| < limit
    ensures |Decisions(trace, limit)| == |trace| && Decisions(trace, limit)[..i] == Decisions(trace[..i], limit)
    decreases |trace|
  {
    DecisionsLength(trace, limit);
    DecisionsBefore(trace, limit);
    var n, before := |trace| - 1, trace[..|trace| - 1];
    DecisionsLength(before, limit);
    if i == n {
      RecentCounts(before, limit, trace[n].address, trace[n].now);
    } else {
      assert before[..i] == trace[..i];
      DecisionMeans(before, limit, i);
    }
  }

  // ----- at most `limit` accepted requests in any window

  /** The hits with `from <= t < from + WINDOW`. */
  function InWindow(hits: seq<real>, from: real): seq<real> {
    if hits == [] then []
    else (if from <= hits[0] < from + WINDOW then [hits[0]] else []) + InWindow(hits[1..], from)
  }

  lemma {:induction false} InWindowConcat(a: seq<real>, b: seq<real>, from: real)
    ensures InWindow(a + b, from) == InWindow(a, from) + InWindow(b, from)
    decreases |a|
  {
    if a == [] {
      assert a + b == b;
    } else {
      assert (a + b)[1..] == a[1..] + b;
      InWindowConcat(a[1..], b, from);
    }
  }

  /** What is in a window that is still open is recent. */
  lemma {:induction false} WindowIsRecent(hits: seq<real>, from: real, now: real)
    requires now < from + WINDOW
    ensures |InWindow(hits, from)| <= |Recent(hits, now)|
    decreases |hits|
  {
    if hits != [] { WindowIsRecent(hits[1..], from, now); }
  }

  /** No window holds more than `limit` accepted hits of one address, whenever it
      starts, after every trace. */
  lemma {:induction false} AtMostLimit(trace: seq<Request>, limit: nat, address: string, from: real)
    ensures |InWindow(Hits(LogOf(trace, limit), address), from)| <= limit
    decreases |trace|
  {
    if trace != [] {
      var before, last := trace[..|trace| - 1], trace[|trace| - 1];
      var log := LogOf(before, limit);
      AtMostLimit(before, limit, address, from);
      if address == last.address && Accepts(log, address, last.now, limit) {
        var hits := Hits(log, address);
        InWindowConcat(hits, [last.now], from);
        assert [last.now][1..] == [];
        if from <= last.now < from + WINDOW { WindowIsRecent(hits, from, last.now); }
      }
    }
  }
}
