/** The cache of open per-directory state stores: which stores are cached and
    which are open after any run of requests and cache clears. */
module StateStoreCache {

  // ----- recency, from the full history of requests

  function Without(keys: seq<string>, key: string): seq<string> {
    if keys == [] then []
    else (if keys[0] == key then [] else [keys[0]]) + Without(keys[1..], key)
  }

  /** The keys ever requested, each once, the one requested longest ago first. */
  function ByRecency(history: seq<string>): seq<string> {
    if history == [] then []
    else Without(ByRecency(history[..|history| - 1]), history[|history| - 1]) + [history[|history| - 1]]
  }

  function LastN(s: seq<string>, n: nat): seq<string> {
    if |s| <= n then s else s[|s| - n..]
  }

  predicate Distinct(s: seq<string>) {
    forall i, j :: 0 <= i < j < |s| ==> s[i] != s[j]
  }

  /** Position of the last request for the key. */
  function LastRequest(history: seq<string>, key: string): (i: int)
    ensures -1 <= i < |history|
    ensures i == -1 <==> key !in history
  {
    if history == [] then -1
    else if history[|history| - 1] == key then |history| - 1
    else LastRequest(history[..|history| - 1], key)
  }

  lemma {:induction false} WithoutMembers(s: seq<string>, key: string)
    ensures forall k :: k in Without(s, key) <==> k in s && k != key
    decreases |s|
  {
    if s != [] { WithoutMembers(s[1..], key); }
  }

  lemma {:induction false} WithoutAbsent(s: seq<string>, key: string)
    requires key !in s
    ensures Without(s, key) == s
    decreases |s|
  {
    if s != [] { WithoutAbsent(s[1..], key); }
  }

  lemma {:induction false} WithoutConcat(a: seq<string>, b: seq<string>, key: string)
    ensures Without(a + b, key) == Without(a, key) + Without(b, key)
    decreases |a|
  {
    if a == [] {
      assert a + b == b;
    } else {
      assert (a + b)[1..] == a[1..] + b;
      WithoutConcat(a[1..], b, key);
    }
  }

  /** Dropping a key keeps the order of the others. */
  lemma {:induction false} WithoutOrder(history: seq<string>, s: seq<string>, key: string)
    requires Ordered(history, s)
    ensures Ordered(history, Without(s, key))
    decreases |s|
  {
    if s != [] {
      OrderedTail(history, s);
      WithoutOrder(history, s[1..], key);
      WithoutMembers(s[1..], key);
      var rest := Without(s[1..], key);
      forall k | k in rest ensures LastRequest(history, s[0]) < LastRequest(history, k) {
        var i :| 1 <= i < |s| && s[i] == k;
      }
      OrderedCons(history, s[0], rest);
    }
  }

  /** Earlier elements were last requested earlier. */
  predicate Ordered(history: seq<string>, s: seq<string>) {
    forall i, j :: 0 <= i < j < |s| ==> LastRequest(history, s[i]) < LastRequest(history, s[j])
  }

  lemma OrderedTail(history: seq<string>, s: seq<string>)
    requires Ordered(history, s) && s != []
    ensures Ordered(history, s[1..])
  {
  }

  lemma OrderedCons(history: seq<string>, key: string, rest: seq<string>)
    requires Ordered(history, rest)
    requires forall k :: k in rest ==> LastRequest(history, key) < LastRequest(history, k)
    ensures Ordered(history, [key] + rest)
  {
  }

  lemma OrderedLater(history: seq<string>, s: seq<string>, key: string)
    requires Ordered(history, s) && key !in s && forall k :: k in s ==> k in history
    ensures Ordered(history + [key], s + [key])
  {
    var h := history + [key];
    assert h[..|h| - 1] == history;
    forall i | 0 <= i < |s| ensures LastRequest(h, s[i]) == LastRequest(history, s[i]) {
      assert s[i] in s;
    }
  }

  /** `ByRecency` lists exactly the requested keys, each once, ordered by their last
      request. */
  lemma {:induction false} RecencyMeaning(history: seq<string>)
    ensures forall k :: k in ByRecency(history) <==> k in history
    ensures Distinct(ByRecency(history)) && Ordered(history, ByRecency(history))
    decreases |history|
  {
    if history != [] {
      var before, key := history[..|history| - 1], history[|history| - 1];
      assert history == before + [key];
      RecencyMeaning(before);
      var r := ByRecency(before);
      WithoutMembers(r, key);
      WithoutOrder(before, r, key);
      OrderedLater(before, Without(r, key), key);
    }
  }

  lemma {:induction false} WithoutOne(s: seq<string>, key: string)
    requires Distinct(s) && key in s
    ensures |Without(s, key)| == |s| - 1
    decreases |s|
  {
    if s[0] == key { WithoutAbsent(s[1..], key); } else { WithoutOne(s[1..], key); }
  }

  lemma DistinctCons(key: string, s: seq<string>)
    requires key !in s && Distinct(s)
    ensures Distinct([key] + s)
  {
  }

  lemma {:induction false} WithoutDistinct(s: seq<string>, key: string)
    requires Distinct(s)
    ensures Distinct(Without(s, key))
    decreases |s|
  {
    if s != [] {
      WithoutDistinct(s[1..], key);
      WithoutMembers(s[1..], key);
      if s[0] != key { DistinctCons(s[0], Without(s[1..], key)); }
    }
  }

  lemma DistinctParts(a: seq<string>, b: seq<string>)
    requires Distinct(a + b)
    ensures Distinct(b) && forall k :: k in b ==> k !in a
  {
    var s := a + b;
    assert forall j :: 0 <= j < |b| ==> s[|a| + j] == b[j];
    assert forall i :: 0 <= i < |a| ==> s[i] == a[i];
  }

  lemma LastOf(first: seq<string>, rest: seq<string>, n: nat)
    requires |rest| == n || (first == [] && |rest| <= n)
    ensures LastN(first + rest, n) == rest
  {
  }

  /** The unlimited list splits into the keys no longer cached and the cached ones. */
  lemma Cut(all: seq<string>, n: nat) returns (first: seq<string>)
    requires Distinct(all)
    ensures all == first + LastN(all, n) && (|LastN(all, n)| == n || (first == [] && |LastN(all, n)| <= n))
    ensures Distinct(LastN(all, n)) && forall k :: k in LastN(all, n) ==> k !in first
  {
    first := all[..|all| - |LastN(all, n)|];
    assert all == first + LastN(all, n);
    DistinctParts(first, LastN(all, n));
  }

  /** A request for a cached key only moves it to the end. */
  lemma Touched(all: seq<string>, key: string, n: nat)
    requires Distinct(all) && key in LastN(all, n)
    ensures LastN(Without(all, key) + [key], n) == Without(LastN(all, n), key) + [key]
  {
    var last := LastN(all, n);
    var first := Cut(all, n);
    WithoutAbsent(first, key);
    WithoutConcat(first, last, key);
    WithoutOne(last, key);
    assert Without(all, key) + [key] == first + (Without(last, key) + [key]);
    LastOf(first, Without(last, key) + [key], n);
  }

  /** A request for a key that is not cached adds it and evicts at most the first. */
  lemma Added(all: seq<string>, key: string, n: nat)
    requires Distinct(all) && n > 0 && key !in LastN(all, n)
    ensures LastN(Without(all, key) + [key], n) == LastN(LastN(all, n) + [key], n)
  {
    var last := LastN(all, n);
    var first := Cut(all, n);
    WithoutAbsent(last, key);
    WithoutConcat(first, last, key);
    assert Without(all, key) + [key] == Without(first, key) + (last + [key]);
    LastOfLonger(Without(first, key), last + [key], n);
  }

  lemma LastOfLonger(a: seq<string>, b: seq<string>, n: nat)
    requires |b| >= n || a == []
    ensures LastN(a + b, n) == LastN(b, n)
  {
    assert a == [] ==> a + b == b;
  }

  /** The cached keys after a request: a cached key moves to the end, a new one is
      added there and the oldest leave. */
  function NextKeys(keys: seq<string>, key: string, n: nat): seq<string> {
    if key in keys then Without(keys, key) + [key] else LastN(keys + [key], n)
  }

  /** What one more request does to the most recent `n` keys, seen from the cached
      keys alone: bounding the list loses nothing. */
  lemma Requested(history: seq<string>, key: string, n: nat, keys: seq<string>)
    requires n > 0 && keys == LastN(ByRecency(history), n)
    ensures LastN(ByRecency(history + [key]), n) == NextKeys(keys, key, n)
  {
    RecencyMeaning(history);
    var h := history + [key];
    assert h[..|h| - 1] == history;
    if key in keys {
      Touched(ByRecency(history), key, n);
    } else {
      Added(ByRecency(history), key, n);
    }
  }

  // ----- the objects

  /** A state store and whether its database connection is open. */
  class Store {
    const key: string
    var open: bool

    constructor (key: string)
      ensures this.key == key && open
    {
      this.key, open := key, true;
    }

    method Close()
      modifies this
      ensures !open
    {
      open := false;
    }
  }

  /** The ordered dictionary of cached stores, oldest first. `history` are the
      requests since the cache was last cleared, `created` all stores ever made. */
  class Cache {
    const maxEntries: int
    var keys: seq<string>
    var stores: map<string, Store>
    ghost var history: seq<string>
    ghost var created: set<Store>

    function Limit(): nat {
      if maxEntries > 1 then maxEntries else 1
    }

    ghost predicate Valid()
      reads this, created
    {
      && Cached()
      && keys == LastN(ByRecency(history), Limit())
    }

    /** The keys are those of the dictionary, each once, and exactly the stores in
        it are open. */
    ghost predicate Cached()
      reads this`keys, this`stores, this`created, created
    {
      && Distinct(keys) && (forall k :: k in keys <==> k in stores)
      && (forall k :: k in stores ==> stores[k] in created && stores[k].key == k)
      && (forall s :: s in created ==> (s.open <==> s.key in stores && stores[s.key] == s))
    }

    constructor (maxEntries: int)
      ensures Valid() && history == [] && created == {} && this.maxEntries == maxEntries
    {
      this.maxEntries := maxEntries;
      keys, stores, history, created := [], map[], [], {};
    }

    /** `popitem(last=False)`: removes the oldest entry and closes its store. */
    method PopOldest()
      requires Cached() && keys != []
      modifies this`keys, this`stores, created
      ensures Cached() && keys == old(keys)[1..]
      ensures forall k :: k in keys ==> stores[k] == old(stores)[k]
    {
      var key := keys[0];
      var store := stores[key];
      keys := keys[1..];
      stores := stores - {key};
      store.Close();
    }

    /** `cache[key] = store` for a new key. */
    method SetItem(key: string, store: Store)
      requires Cached() && store !in created && store.open && store.key == key && key !in stores
      modifies this`keys, this`stores, this`created
      ensures Cached() && created == old(created) + {store} && keys == old(keys) + [key]
      ensures key in stores && stores[key] == store
    {
      created := created + {store};
      keys, stores := keys + [key], stores[key := store];
    }

    /** The loop of `get_state_store`: removes the oldest while there are too many. */
    method EvictOldest()
      requires Cached() && keys != []
      modifies this`keys, this`stores, created
      ensures Cached() && keys == LastN(old(keys), Limit())
      ensures forall k :: k in keys ==> stores[k] == old(stores)[k]
    {
      while |keys| > Limit()
        invariant Cached() && keys != [] && LastN(keys, Limit()) == LastN(old(keys), Limit())
        invariant forall k :: k in keys ==> k in old(stores) && stores[k] == old(stores)[k]
        decreases |keys|
      {
        PopOldest();
      }
    }

    /** The branch of `get_state_store` for a cached key: `move_to_end`. */
    method MoveToEnd(key: string) returns (store: Store)
      requires Cached() && key in stores
      modifies this`keys
      ensures Cached() && keys == Without(old(keys), key) + [key]
      ensures store == stores[key] && store.open && store.key == key
    {
      WithoutMembers(keys, key);
      WithoutDistinct(keys, key);
      keys := Without(keys, key) + [key];
      store := stores[key];
    }

    lemma CachedKey(key: string)
      requires Cached()
      ensures key in keys <==> key in stores
    {
    }

    /** The branch of `get_state_store` for a key that is not cached. */
    method OpenStore(key: string) returns (store: Store)
      requires Cached() && key !in stores
      modifies this`keys, this`stores, this`created, created
      ensures Cached() && keys == LastN(old(keys) + [key], Limit())
      ensures store.key == key && store.open && key in stores && stores[key] == store
      ensures fresh(store) && created == old(created) + {store}
    {
      store := new Store(key);
      SetItem(key, store);
      EvictOldest();
      assert keys[|keys| - 1] == key;
    }

    /** `get_state_store` on the dictionary. */
    method Serve(key: string) returns (store: Store)
      requires Cached()
      modifies this`keys, this`stores, this`created, created
      ensures Cached() && keys == NextKeys(old(keys), key, Limit())
      ensures store.key == key && store.open && key in stores && stores[key] == store
      ensures if key in old(stores) then store == old(stores)[key] && created == old(created)
              else fresh(store) && created == old(created) + {store}
    {
      CachedKey(key);
      if key !in stores {
        store := OpenStore(key);
      } else {
        store := MoveToEnd(key);
      }
    }

    /** `get_state_store`, with the request recorded. */
    method GetStateStore(key: string) returns (store: Store)
      requires Valid()
      modifies this, created
      ensures Valid() && history == old(history) + [key]
      ensures store.key == key && store.open && key in stores && stores[key] == store
      ensures if key in old(stores) then store == old(stores)[key] && created == old(created)
              else fresh(store) && created == old(created) + {store}
    {
      Requested(history, key, Limit(), keys);
      store := Serve(key);
      history := history + [key];
    }

    /** `close_state_store_cache`. */
    method Clear()
      requires Valid()
      modifies this, created
      ensures Valid() && history == [] && keys == [] && created == old(created)
      ensures forall s :: s in created ==> !s.open
    {
      var closing, closed := keys, stores;
      keys, stores := [], map[];
      history := [];
      for i := 0 to |closing|
        invariant keys == [] && stores == map[] && history == [] && created == old(created)
        invariant forall s :: s in created && s.open ==> s.key in closing[i..] && closed[s.key] == s
      {
        closed[closing[i]].Close();
      }
    }
  }
}
