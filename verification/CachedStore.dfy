/** The cached store of featureflag/cache/store.go on the heap: a store and a cache of flag pointers. The
    cache holds the very pointers that it is given and hands them out again, so what it shows depends on
    what callers write to their flags; Sharing says when. Each method does what Backend says, to the
    pointers (Raw) and to the flags behind them (View). */
module CachedStore {
  import opened Prelude
  import opened Flags
  import opened LruSpec
  import opened Backend
  import opened MemoryStore
  import opened FlagCache
  import opened Metrics
  import StoreSpec

  // ----- Pointers and the flags behind them -----

  type Snapshot = map<FeatureFlag, Flag>

  ghost function Pointers(c: Lru<FeatureFlag>): (ps: set<FeatureFlag>)
    ensures forall k {:trigger c.items[k]} :: k in c.items ==> c.items[k].value in ps
  {
    set k | k in c.items :: c.items[k].value
  }

  /** The objects that the cached flags consist of. */
  ghost function Behind(ps: set<FeatureFlag>): (os: set<object>)
    reads ps
    ensures forall p :: p in ps ==> p in os && (p.s.metadata != null ==> p.s.metadata in os)
    ensures forall o :: o in os ==> o is FeatureFlag || o is MetadataMap
  {
    (set p | p in ps :: p as object) + (set p | p in ps && p.s.metadata != null :: p.s.metadata as object)
  }

  /** The flags as they are now. */
  ghost function Look(ps: set<FeatureFlag>): Snapshot
    reads ps, Behind(ps)
  {
    map p | p in ps :: p.Value()
  }

  /** The cache c with every pointer replaced by the flag that seen has for it. */
  ghost function Deref(c: Lru<FeatureFlag>, seen: Snapshot): Lru<Flag>
    requires Pointers(c) <= seen.Keys
  {
    Lru(c.order, map k | k in c.items :: Entry(seen[c.items[k].value], c.items[k].expiresAt, c.items[k].id),
        c.issued, c.evicted)
  }

  ghost predicate Known(b: Layered<FeatureFlag>, seen: Snapshot) {
    b.cache.Some? ==> Pointers(b.cache.value) <= seen.Keys
  }

  ghost function Shown(b: Layered<FeatureFlag>, seen: Snapshot): Backend
    requires Known(b, seen)
  {
    Backend(b.table, if b.cache.Some? then Some(Deref(b.cache.value, seen)) else None, b.counts)
  }

  // Everything the cache does to pointers it does to the flags behind them.

  lemma DerefGrow(cfg: Config, c: Lru<FeatureFlag>, seen: Snapshot, k: string, p: FeatureFlag, expiresAt: int)
    requires Pointers(c) <= seen.Keys && p in seen
    ensures Pointers(Grow(c, k, p, expiresAt)) <= seen.Keys
    ensures Deref(Grow(c, k, p, expiresAt), seen) == Grow(Deref(c, seen), k, seen[p], expiresAt)
  {
  }

  lemma DerefTruncate(cfg: Config, c: Lru<FeatureFlag>, seen: Snapshot)
    requires Pointers(c) <= seen.Keys
    ensures Pointers(Truncate(cfg, c)) <= seen.Keys
    ensures Deref(Truncate(cfg, c), seen) == Truncate(cfg, Deref(c, seen))
  {
  }

  lemma DerefOverwrite(cfg: Config, c: Lru<FeatureFlag>, seen: Snapshot, k: string, p: FeatureFlag, now: int)
    requires Pointers(c) <= seen.Keys && p in seen && k in c.items
    ensures Pointers(Promote(Overwrite(cfg, c, k, p, now), k)) <= seen.Keys
    ensures Deref(Promote(Overwrite(cfg, c, k, p, now), k), seen)
         == Promote(Overwrite(cfg, Deref(c, seen), k, seen[p], now), k)
  {
    hide ToFront;
  }

  lemma DerefPut(cfg: Config, c: Lru<FeatureFlag>, seen: Snapshot, k: string, p: FeatureFlag, now: int)
    requires Pointers(c) <= seen.Keys && p in seen
    ensures Pointers(Put(cfg, c, k, p, now)) <= seen.Keys
    ensures Deref(Put(cfg, c, k, p, now), seen) == Put(cfg, Deref(c, seen), k, seen[p], now)
  {
    hide Grow, Truncate, Overwrite, Promote;
    if k in c.items {
      DerefOverwrite(cfg, c, seen, k, p, now);
    } else {
      DerefGrow(cfg, c, seen, k, p, Deadline(cfg, now));
      DerefTruncate(cfg, Grow(c, k, p, Deadline(cfg, now)), seen);
    }
  }

  lemma DerefRemove(c: Lru<FeatureFlag>, seen: Snapshot, ks: set<string>)
    requires Pointers(c) <= seen.Keys
    ensures Pointers(Remove(c, ks)) <= seen.Keys
    ensures Deref(Remove(c, ks), seen) == Remove(Deref(c, seen), ks)
  {
    hide Drop;
    var v := Deref(c, seen);
    assert v.items.Keys == c.items.Keys;
    DerefItems(c, seen, ks);
  }

  lemma DerefItems(c: Lru<FeatureFlag>, seen: Snapshot, ks: set<string>)
    requires Pointers(c) <= seen.Keys
    ensures Pointers(Remove(c, ks)) <= seen.Keys
    ensures Deref(Remove(c, ks), seen).items == Deref(c, seen).items - ks
  {
    hide Drop;
    var left := c.items - ks;
    assert forall k :: k in left ==> k in c.items && left[k] == c.items[k];
    var l, r := Deref(Remove(c, ks), seen).items, Deref(c, seen).items - ks;
    assert l.Keys == left.Keys == r.Keys;
    assert forall k :: k in left ==> l[k] == r[k];
  }

  lemma DerefSweep(cfg: Config, c: Lru<FeatureFlag>, seen: Snapshot, now: int)
    requires Pointers(c) <= seen.Keys
    ensures Pointers(Sweep(cfg, c, now)) <= seen.Keys
    ensures Deref(Sweep(cfg, c, now), seen) == Sweep(cfg, Deref(c, seen), now)
  {
    assert StaleKeys(cfg, c, now) == StaleKeys(cfg, Deref(c, seen), now);
    DerefRemove(c, seen, StaleKeys(cfg, c, now));
  }

  lemma DerefGet(cfg: Config, c: Lru<FeatureFlag>, seen: Snapshot, k: string, t1: int, t2: int)
    requires Pointers(c) <= seen.Keys
    ensures Pointers(AfterGet(cfg, c, k, t1, t2)) <= seen.Keys
    ensures Deref(AfterGet(cfg, c, k, t1, t2), seen) == AfterGet(cfg, Deref(c, seen), k, t1, t2)
  {
    DerefRemove(c, seen, {k});
  }

  lemma DerefLookup(cfg: Config, c: Lru<FeatureFlag>, seen: Snapshot, k: string, now: int)
    requires Pointers(c) <= seen.Keys
    ensures match Lookup(cfg, c, k, now)
      case None => Lookup(cfg, Deref(c, seen), k, now) == None
      case Some(p) => p in seen && Lookup(cfg, Deref(c, seen), k, now) == Some(seen[p])
  {
  }

  /** cache.Set for every key of a list. */
  ghost function PutAll(cfg: Config, c: Lru<FeatureFlag>, fs: seq<Flag>, ps: seq<FeatureFlag>,
                        times: seq<int>): Lru<FeatureFlag>
    requires |fs| == |ps| <= |times|
  {
    if fs == [] then c
    else
      var n := |fs| - 1;
      Put(cfg, PutAll(cfg, c, fs[..n], ps[..n], times), fs[n].key, ps[n], times[n])
  }

  lemma PutAllNone(cfg: Config, c: Lru<FeatureFlag>, times: seq<int>)
    ensures PutAll(cfg, c, [], [], times) == c
  {
  }

  lemma PutAllNext(cfg: Config, c: Lru<FeatureFlag>, fs: seq<Flag>, ps: seq<FeatureFlag>, p: FeatureFlag,
                   times: seq<int>)
    requires |ps| < |fs| <= |times|
    ensures var i := |ps|;
      PutAll(cfg, c, fs[..i + 1], ps + [p], times)
      == Put(cfg, PutAll(cfg, c, fs[..i], ps, times), fs[i].key, p, times[i])
  {
    var i := |ps|;
    assert fs[..i + 1][..i] == fs[..i] && (ps + [p])[..i] == ps;
  }

  /** GetAll, on pointers; without a cache ps does not matter. */
  ghost function AfterPointerGetAll(cfg: Config, b: Layered<FeatureFlag>, fs: seq<Flag>, ps: seq<FeatureFlag>,
                                    times: seq<int>): Layered<FeatureFlag>
    requires b.cache.Some? ==> |fs| == |ps| <= |times|
  {
    b.(counts := Bump(b.counts, true),
       cache := if b.cache.Some? then Some(PutAll(cfg, b.cache.value, fs, ps, times)) else None)
  }

  /** fs are the flags of m in the order of order, with a reading of the clock for each. */
  ghost predicate Listed(m: StoreSpec.Table, order: seq<string>, fs: seq<Flag>) {
    && StoreSpec.Enumerates(order, m) && |order| == |fs| == |m|
    && (forall k :: k in order ==> k in m) && fs == StoreSpec.Listing(m, order)
  }

  lemma {:induction false} DerefPutAll(cfg: Config, c: Lru<FeatureFlag>, seen: Snapshot, fs: seq<Flag>,
                                       ps: seq<FeatureFlag>, times: seq<int>)
    requires Pointers(c) <= seen.Keys && |fs| == |ps| <= |times|
    requires forall i :: 0 <= i < |ps| ==> ps[i] in seen && seen[ps[i]] == fs[i]
    ensures Pointers(PutAll(cfg, c, fs, ps, times)) <= seen.Keys
    ensures Deref(PutAll(cfg, c, fs, ps, times), seen) == WarmAll(cfg, Deref(c, seen), fs, times)
  {
    if fs != [] {
      var n := |fs| - 1;
      DerefPutAll(cfg, c, seen, fs[..n], ps[..n], times);
      DerefPut(cfg, PutAll(cfg, c, fs[..n], ps[..n], times), seen, fs[n].key, ps[n], times[n]);
    }
  }

  lemma ShownGet(cfg: Config, b: Layered<FeatureFlag>, seen: Snapshot, key: string, t1: int, t2: int, t3: int,
                 fill: Option<FeatureFlag>)
    requires Known(b, seen)
    requires Cached(cfg, b, key, t1).None? ==> Fills(b.table, key, seen, fill)
    ensures var n := AfterLayeredGet(cfg, b, key, t1, t2, t3, fill);
      Known(n, seen) && Shown(n, seen) == AfterBackendGet(cfg, Shown(b, seen), key, t1, t2, t3)
    ensures match Cached(cfg, b, key, t1)
      case Some(p) => p in seen && GetResult(cfg, Shown(b, seen), key, t1) == Ok(seen[p])
      case None => GetResult(cfg, Shown(b, seen), key, t1) == StoreSpec.Get(b.table, key)
  {
    if b.cache.Some? {
      var c := b.cache.value;
      DerefLookup(cfg, c, seen, key, t1);
      DerefGet(cfg, c, seen, key, t1, t2);
      if Lookup(cfg, c, key, t1).None? && fill.Some? {
        DerefPut(cfg, AfterGet(cfg, c, key, t1, t2), seen, key, fill.value, t3);
      }
    }
  }

  /** fill is a pointer to the flag that the store has, if it has one. */
  ghost predicate Fills(m: StoreSpec.Table, key: string, seen: Snapshot, fill: Option<FeatureFlag>) {
    match StoreSpec.Get(m, key)
    case Err(_) => fill == None
    case Ok(f) => fill.Some? && fill.value in seen && seen[fill.value] == f
  }

  lemma ShownSet(cfg: Config, b: Layered<FeatureFlag>, seen: Snapshot, f: Flag, now: int, t: int,
                 keep: Option<FeatureFlag>)
    requires Known(b, seen)
    requires StoreSpec.SetError(f).None? && b.cache.Some? ==> keep.Some? && keep.value in seen && seen[keep.value] == f
    ensures var n := AfterLayeredSet(cfg, b, f, now, t, keep);
      Known(n, seen) && Shown(n, seen) == AfterBackendSet(cfg, Shown(b, seen), f, now, t)
  {
    if StoreSpec.SetError(f).None? && b.cache.Some? {
      DerefPut(cfg, b.cache.value, seen, f.key, keep.value, t);
    }
  }

  lemma ShownGetAll(cfg: Config, b: Layered<FeatureFlag>, seen: Snapshot, fs: seq<Flag>, ps: seq<FeatureFlag>,
                    times: seq<int>)
    requires Known(b, seen) && |fs| <= |times|
    requires b.cache.Some? ==> |fs| == |ps| && forall i :: 0 <= i < |ps| ==> ps[i] in seen && seen[ps[i]] == fs[i]
    ensures var n := AfterPointerGetAll(cfg, b, fs, ps, times);
      Known(n, seen) && Shown(n, seen) == AfterBackendGetAll(cfg, Shown(b, seen), fs, times)
  {
    if b.cache.Some? {
      DerefPutAll(cfg, b.cache.value, seen, fs, ps, times);
    }
  }

  lemma ShownDelete(b: Layered<FeatureFlag>, seen: Snapshot, key: string)
    requires Known(b, seen)
    ensures var n := AfterBackendDelete(b, key);
      Known(n, seen) && Shown(n, seen) == AfterBackendDelete(Shown(b, seen), key)
  {
    if b.cache.Some? {
      DerefRemove(b.cache.value, seen, {key});
    }
  }

  lemma ShownCleanup(cfg: Config, b: Layered<FeatureFlag>, seen: Snapshot, now: int)
    requires Known(b, seen)
    ensures var n := AfterBackendCleanup(cfg, b, now);
      Known(n, seen) && Shown(n, seen) == AfterBackendCleanup(cfg, Shown(b, seen), now)
  {
    if b.cache.Some? {
      DerefSweep(cfg, b.cache.value, seen, now);
    }
  }

  /** Flags that are not in the cache do not show. */
  lemma ShownMore(b: Layered<FeatureFlag>, seen: Snapshot, more: Snapshot)
    requires Known(b, seen) && forall p :: p in seen ==> p in more && more[p] == seen[p]
    ensures Known(b, more) && Shown(b, more) == Shown(b, seen)
  {
    if b.cache.Some? {
      assert Deref(b.cache.value, more).items == Deref(b.cache.value, seen).items;
    }
  }

  class CachedStore {
    const store: Store
    /** null when caching is disabled. */
    const cache: Cache?<FeatureFlag>
    const metrics: Collector

    function Cfg(): Config {
      if cache == null then Config(0, 0) else cache.Cfg()
    }

    ghost function CacheParts(): set<object>
      reads cache
    {
      if cache == null then {} else cache.Repr
    }

    /** What every operation may write to. */
    ghost function Footprint(): set<object>
      reads store, cache, metrics
    {
      {store, metrics, metrics.cacheEvictions} + store.Repr + CacheParts() + metrics.Repr
    }

    /** Not a part of this cached store; a flag made of such objects may be cached. */
    ghost predicate Outside(o: object)
      reads store, cache, metrics
    {
      o !in Footprint()
    }

    ghost predicate Foreign(s: FlagStruct)
      reads store, cache, metrics
    {
      s.metadata != null ==> Outside(s.metadata)
    }

    /** The objects of a caller, or of a list in hand: none is a part. */
    ghost predicate AllOutside(ms: set<object>)
      reads store, cache, metrics
    {
      ms !! Footprint()
    }

    ghost function Tally(): Counts
      reads metrics
    {
      Counts(metrics.cacheHits, metrics.cacheMisses, metrics.storageOperations, metrics.storageSuccesses)
    }

    /** This cached store as Backend sees it, with pointers in the cache. */
    ghost function Raw(): Layered<FeatureFlag>
      reads store, cache, metrics
    {
      Backend(store.table, if cache == null then None else Some(cache.model), Tally())
    }

    /** The flags behind the pointers in the cache. */
    ghost function Resident(): set<FeatureFlag>
      reads cache
    {
      if cache == null then {} else Pointers(cache.model)
    }

    /** This cached store as Backend sees it, with flags in the cache. */
    ghost function View(): Backend
      reads store, cache, metrics, Resident(), Behind(Resident())
    {
      Shown(Raw(), Look(Resident()))
    }

    /** The parts do not overlap and are in order. This says nothing about the cached flags. */
    ghost predicate InOrder()
      reads store, store.Repr, cache, CacheParts(), metrics, metrics.Repr, metrics.cacheEvictions
    {
      && store.Repr !! CacheParts() && metrics.Repr !! store.Repr && metrics.Repr !! CacheParts()
      && store.Valid() && metrics.Valid()
      && (cache != null ==>
            && cache.Valid() && cache.onEvict == metrics.cacheEvictions
            && metrics.cacheEvictions.count == cache.model.evicted)
    }

    /** No cached flag is a part. */
    ghost predicate Valid()
      reads store, store.Repr, cache, CacheParts(), metrics, metrics.Repr, metrics.cacheEvictions, Resident()
    {
      InOrder() && AllOutside(Behind(Resident()))
    }

    /** NewStoreWithMetrics; the store may hold flags already. */
    constructor (store: Store, enabled: bool, maxSize: int, ttl: int)
      requires store.Valid()
      ensures Valid() && this.store == store && fresh(Footprint() - {store} - store.Repr)
      ensures View() == Over(store.table, enabled) && (cache != null <==> enabled)
      ensures enabled ==> Cfg() == Config(maxSize, ttl)
    {
      hide Cache.Valid, Store.Valid, Shown, Look, Behind, Pointers;
      this.store := store;
      var collector := new Collector();
      metrics := collector;
      if enabled {
        cache := new Cache<FeatureFlag>(maxSize, ttl, collector.cacheEvictions);
      } else {
        cache := null;
      }
      new;
      NothingCached();
    }

    lemma NothingCached()
      requires cache != null ==> cache.model == Empty()
      ensures Behind(Resident()) == {} && View() == Over(store.table, cache != null).(counts := Tally())
    {
      assert Resident() == {};
    }

    // ----- The parts of the operations: one locked region of a part each -----

    method LookInCache(key: string, t1: int, t2: int) returns (r: Option<FeatureFlag>)
      requires InOrder() && cache != null
      modifies cache.Repr, metrics.cacheEvictions
      ensures InOrder() && Footprint() == old(Footprint())
      ensures Raw() == old(Raw()).(cache := Some(AfterGet(Cfg(), old(cache.model), key, t1, t2)))
      ensures r == Lookup(Cfg(), old(cache.model), key, t1)
    {
      hide AfterGet, Lookup;
      r := cache.Get(key, t1, t2);
    }

    method DropFromCache(key: string)
      requires InOrder() && cache != null
      modifies cache.Repr, metrics.cacheEvictions
      ensures InOrder() && Footprint() == old(Footprint())
      ensures Raw() == old(Raw()).(cache := Some(LruSpec.Delete(old(cache.model), key)))
    {
      hide LruSpec.Delete;
      cache.Delete(key);
    }

    method PutInCache(key: string, p: FeatureFlag, t: int)
      requires InOrder() && cache != null
      modifies cache.Repr, metrics.cacheEvictions
      ensures InOrder() && fresh(Footprint() - old(Footprint()))
      ensures Raw() == old(Raw()).(cache := Some(Put(Cfg(), old(cache.model), key, p, t)))
      ensures key in cache.model.items && cache.model.items[key].value == p
      ensures cache.model.items[key].expiresAt == Deadline(Cfg(), t)
    {
      hide Put, Cache.InStep, LruSpec.Valid;
      cache.ModelValid();
      PutValid(Cfg(), cache.model, key, p, t);
      cache.Set(key, p, t);
    }

    method SweepCache(now: int)
      requires InOrder() && cache != null
      modifies cache.Repr, metrics.cacheEvictions
      ensures InOrder() && Footprint() == old(Footprint())
      ensures Raw() == old(Raw()).(cache := Some(Sweep(Cfg(), old(cache.model), now)))
    {
      hide Sweep;
      cache.RemoveExpiredItems(now);
    }

    method WriteStore(flag: FlagStruct, now: int) returns (err: Option<Error>)
      requires InOrder() && now > 0
      modifies store
      ensures InOrder() && fresh(Footprint() - old(Footprint()))
      ensures err == StoreSpec.SetError(flag.Value())
      ensures Raw() == old(Raw()).(table := StoreSpec.Set(old(store.table), flag.Value(), now))
    {
      err := store.Set(flag, now);
    }

    method DeleteInStore(key: string) returns (err: Option<Error>)
      requires InOrder()
      modifies store
      ensures InOrder() && Footprint() == old(Footprint())
      ensures err == StoreSpec.DeleteError(old(store.table), key)
      ensures Raw() == old(Raw()).(table := StoreSpec.Delete(old(store.table), key))
    {
      err := store.Delete(key);
    }

    method AskStore(key: string) returns (r: Result<FeatureFlag, Error>)
      requires InOrder()
      ensures match StoreSpec.Get(store.table, key)
        case Err(e) => r == Err(e)
        case Ok(f) => r.Ok? && r.value.Value() == f && fresh(Parts(r.value)) && Free(r.value)
    {
      hide Cache.Valid, Collector.Valid;
      r := store.Get(key);
    }

    method RecordCacheHit()
      requires InOrder()
      modifies metrics
      ensures InOrder() && Footprint() == old(Footprint())
      ensures Raw() == old(Raw()).(counts := old(Tally()).(hits := old(Tally()).hits + 1))
    {
      metrics.RecordCacheHit();
    }

    method RecordCacheMiss()
      requires InOrder()
      modifies metrics
      ensures InOrder() && Footprint() == old(Footprint())
      ensures Raw() == old(Raw()).(counts := old(Tally()).(misses := old(Tally()).misses + 1))
    {
      metrics.RecordCacheMiss();
    }

    /** The measured duration is arbitrary. */
    method RecordStorageOperation(success: bool)
      requires InOrder()
      modifies metrics.Repr
      ensures InOrder() && fresh(Footprint() - old(Footprint()))
      ensures Raw() == old(Raw()).(counts := Bump(old(Tally()), success))
      ensures exists d :: metrics.storageDurations.Contents()
                       == Latest(old(metrics.storageDurations.Contents()) + [d], MAX_DURATIONS)
    {
      var duration: int := *;
      metrics.RecordStorageOperation(success, duration);
    }

    // ----- The operations, on pointers -----

    /** p is not a part, nor is its metadata. */
    ghost predicate Free(p: FeatureFlag)
      reads store, cache, metrics, p
    {
      Outside(p) && Foreign(p.s)
    }

    /** What Get does when the store has found the flag. */
    method KeepIfCached(key: string, p: FeatureFlag, t3: int)
      requires InOrder() && Free(p)
      modifies Footprint()
      ensures InOrder() && fresh(Footprint() - old(Footprint()))
      ensures Free(p) && p.s == old(p.s) && p.Value() == old(p.Value())
      ensures Raw() == old(Raw()).(counts := Bump(old(Tally()), true), cache :=
                if cache == null then None else Some(Put(Cfg(), old(Raw()).cache.value, key, p, t3)))
    {
      hide InOrder, Put;
      RecordStorageOperation(true);
      if cache != null {
        PutInCache(key, p, t3);
      }
    }

    /** Get after a miss, or without a cache: the store hands out a clone. */
    method GetFromStore(key: string, t3: int) returns (r: Result<FeatureFlag, Error>)
      requires InOrder()
      modifies Footprint()
      ensures InOrder() && fresh(Footprint() - old(Footprint()))
      ensures match StoreSpec.Get(old(store.table), key)
        case Err(e) => r == Err(e) && Raw() == old(Raw()).(counts := Bump(old(Tally()), false))
        case Ok(f) =>
          && r.Ok? && fresh(Parts(r.value)) && Free(r.value) && r.value.Value() == f
          && Raw() == old(Raw()).(counts := Bump(old(Tally()), true), cache :=
               if cache == null then None else Some(Put(Cfg(), old(Raw()).cache.value, key, r.value, t3)))
    {
      hide InOrder, Put;
      r := AskStore(key);
      if r.Ok? {
        KeepIfCached(key, r.value, t3);
      } else {
        RecordStorageOperation(false);
      }
    }

    /** The answer comes from the store: its error, or a new flag, which is what may be cached. */
    twostate predicate Fetched(m: StoreSpec.Table, key: string, new r: Result<FeatureFlag, Error>,
                               new fill: Option<FeatureFlag>)
      reads store, cache, metrics, if r.Ok? then Behind({r.value}) else {}
    {
      match StoreSpec.Get(m, key)
      case Err(e) => r == Err(e) && fill == None
      case Ok(f) => r.Ok? && fill == Some(r.value) && fresh(Parts(r.value)) && Free(r.value) && r.value.Value() == f
    }

    /** A hit hands out the cached pointer itself. */
    method GetThroughCache(key: string, t1: int, t2: int, t3: int)
      returns (r: Result<FeatureFlag, Error>, ghost fill: Option<FeatureFlag>)
      requires InOrder() && cache != null
      modifies Footprint()
      ensures InOrder() && fresh(Footprint() - old(Footprint()))
      ensures Raw() == AfterLayeredGet(Cfg(), old(Raw()), key, t1, t2, t3, fill)
      ensures match Cached(Cfg(), old(Raw()), key, t1)
        case Some(p) => r == Ok(p) && fill == None
        case None => Fetched(old(store.table), key, r, fill)
    {
      hide InOrder, AfterGet, Put, Lookup;
      var hit := LookInCache(key, t1, t2);
      if hit.Some? {
        RecordCacheHit();
        r, fill := Ok(hit.value), None;
      } else {
        RecordCacheMiss();
        r := GetFromStore(key, t3);
        fill := if r.Ok? then Some(r.value) else None;
      }
    }

    /** Get, on pointers. */
    method GetPointer(key: string, t1: int, t2: int, t3: int)
      returns (r: Result<FeatureFlag, Error>, ghost fill: Option<FeatureFlag>)
      requires InOrder()
      modifies Footprint()
      ensures InOrder() && fresh(Footprint() - old(Footprint()))
      ensures Raw() == AfterLayeredGet(Cfg(), old(Raw()), key, t1, t2, t3, fill)
      ensures match Cached(Cfg(), old(Raw()), key, t1)
        case Some(p) => r == Ok(p) && fill == None
        case None => Fetched(old(store.table), key, r, fill)
    {
      hide InOrder, AfterGet, Put, Lookup;
      if cache != null {
        r, fill := GetThroughCache(key, t1, t2, t3);
      } else {
        r := GetFromStore(key, t3);
        fill := if r.Ok? then Some(r.value) else None;
      }
    }

    /** What Set does after the store: it caches a copy of the caller's struct, metadata reference and all. */
    method KeepCopy(flag: FlagStruct, ok: bool, t: int) returns (ghost kept: Option<FeatureFlag>)
      requires InOrder()
      modifies Footprint()
      ensures InOrder() && fresh(Footprint() - old(Footprint()))
      ensures kept.Some? <==> ok && cache != null
      ensures kept.Some? ==> fresh(kept.value) && Outside(kept.value) && kept.value.s == flag
      ensures kept.Some? ==> Holds(flag.key, flag, t)
      ensures Raw() == old(Raw()).(counts := Bump(old(Tally()), ok), cache :=
                if kept.None? then old(Raw()).cache
                else Some(Put(Cfg(), old(cache.model), flag.key, kept.value, t)))
    {
      hide InOrder, Put;
      RecordStorageOperation(ok);
      kept := None;
      if ok && cache != null {
        var copied := new FeatureFlag(flag);
        PutInCache(flag.key, copied, t);
        kept := Some(copied);
      }
    }

    /** Set, on pointers. */
    method SetPointer(flag: FlagStruct, now: int, t: int) returns (err: Option<Error>, ghost kept: Option<FeatureFlag>)
      requires InOrder() && now > 0 && Foreign(flag)
      modifies Footprint()
      ensures InOrder() && fresh(Footprint() - old(Footprint()))
      ensures err == StoreSpec.SetError(flag.Value())
      ensures kept.Some? <==> err.None? && cache != null
      ensures kept.Some? ==> fresh(kept.value) && Free(kept.value) && kept.value.s == flag && Holds(flag.key, flag, t)
      ensures Raw() == AfterLayeredSet(Cfg(), old(Raw()), old(flag.Value()), now, t, kept)
    {
      hide InOrder;
      err := WriteStore(flag, now);
      kept := KeepCopy(flag, err.None?, t);
    }

    method WarmOne(flag: FlagStruct, t: int) returns (copied: FeatureFlag)
      requires InOrder() && cache != null
      modifies Footprint()
      ensures InOrder() && fresh(Footprint() - old(Footprint()))
      ensures fresh(copied) && Outside(copied) && copied.s == flag
      ensures Raw() == old(Raw()).(cache := Some(Put(Cfg(), old(cache.model), flag.key, copied, t)))
    {
      hide InOrder;
      copied := new FeatureFlag(flag);
      PutInCache(flag.key, copied, t);
    }

    /** The cache has an entry for the key that was set at time t, with this struct behind its pointer. */
    ghost predicate Holds(key: string, s: FlagStruct, t: int)
      reads cache, Resident()
    {
      && cache != null && key in cache.model.items
      && cache.model.items[key].value.s == s && cache.model.items[key].expiresAt == Deadline(Cfg(), t)
    }

    /** Delete, on pointers. */
    method DeletePointer(key: string) returns (err: Option<Error>)
      requires InOrder()
      modifies Footprint()
      ensures InOrder() && fresh(Footprint() - old(Footprint()))
      ensures err == StoreSpec.DeleteError(old(store.table), key)
      ensures Raw() == AfterBackendDelete(old(Raw()), key)
    {
      hide InOrder;
      err := DeleteInStore(key);
      RecordStorageOperation(err.None?);
      if err.None? && cache != null {
        DropFromCache(key);
      }
    }

    method ClosePointer()
      requires InOrder()
      modifies store
      ensures InOrder() && Footprint() == old(Footprint()) && Raw() == old(Raw()).(table := map[])
    {
      store.Close();
    }

    method SweepPointers(now: int)
      requires InOrder()
      modifies Footprint()
      ensures InOrder() && Footprint() == old(Footprint()) && Raw() == AfterBackendCleanup(Cfg(), old(Raw()), now)
    {
      hide InOrder;
      if cache != null {
        SweepCache(now);
      }
    }

    /** The loop of GetAll. Each round caches a pointer of its own: since Go 1.22 every iteration has its
        own loop variable. */
    method WarmCache(all: seq<FlagStruct>, ghost fs: seq<Flag>, times: seq<int>) returns (ghost ps: seq<FeatureFlag>)
      requires InOrder() && cache != null && |fs| == |all| <= |times|
      requires forall i :: 0 <= i < |all| ==> all[i].key == fs[i].key
      modifies Footprint()
      ensures InOrder() && fresh(Footprint() - old(Footprint()))
      ensures Copies(ps, all)
      ensures Raw() == old(Raw()).(cache := Some(PutAll(Cfg(), old(cache.model), fs, ps, times)))
    {
      hide InOrder, NoDup, PutAll, Put;
      ps := [];
      NoDupNone<FeatureFlag>();
      PutAllNone(Cfg(), cache.model, times);
      ghost var made: set<object> := {};
      for i := 0 to |all|
        invariant InOrder() && fresh(Footprint() - old(Footprint())) && |ps| == i
        invariant NoDup(ps) && fresh(made) && AllOutside(made)
        invariant forall j {:trigger ps[j]} :: 0 <= j < i ==> ps[j] in made && ps[j].s == all[j]
        invariant Raw() == old(Raw()).(cache := Some(PutAll(Cfg(), old(cache.model), fs[..i], ps, times)))
      {
        var copied := WarmOne(all[i], times[i]);
        PutAllNext(Cfg(), old(cache.model), fs, ps, copied, times);
        NoDupSnoc(ps, copied);
        ps, made := ps + [copied], made + {copied};
      }
      assert fs[..|all|] == fs && all[..|all|] == all;
    }

    /** The pointers are new, all different, and each has its own struct of the list. */
    twostate predicate Copies(new ps: seq<FeatureFlag>, new all: seq<FlagStruct>)
      reads ps, store, cache, metrics
    {
      && |ps| == |all| && NoDup(ps)
      && (forall i {:trigger ps[i]} :: 0 <= i < |ps| ==> fresh(ps[i]) && Outside(ps[i]) && ps[i].s == all[i])
    }

    /** store.GetAll: clones, with metadata maps of their own. */
    method ListStore()
      returns (all: seq<FlagStruct>, ghost order: seq<string>, ghost fs: seq<Flag>, ghost ms: set<object>)
      requires InOrder()
      ensures Listed(store.table, order, fs)
      ensures ValuesAre(all, fs, ms) && AllOutside(ms) && fresh(ms)
    {
      hide Store.Valid, Cache.Valid, Listed, ValuesAre;
      all, order, fs, ms := ListClones(store);
    }

    /** What GetAll does after it has the list. */
    method WarmIfCached(all: seq<FlagStruct>, ghost fs: seq<Flag>, times: seq<int>, ghost ms: set<object>)
      returns (ghost ps: seq<FeatureFlag>)
      requires InOrder() && AllOutside(ms) && ValuesAre(all, fs, ms) && |fs| <= |times|
      modifies Footprint()
      ensures InOrder() && fresh(Footprint() - old(Footprint())) && AllOutside(ms) && ValuesAre(all, fs, ms)
      ensures cache != null ==> |ps| == |fs| && Copies(ps, all)
      ensures Raw() == AfterPointerGetAll(Cfg(), old(Raw()), fs, ps, times)
    {
      hide InOrder, PutAll;
      RecordStorageOperation(true);
      assert forall i {:trigger all[i]} :: 0 <= i < |all| ==> all[i].Value() == fs[i] && all[i].key == fs[i].key;
      if cache != null {
        ps := WarmCache(all, fs, times);
      } else {
        ps := [];
      }
    }

    /** GetAll, on pointers: it answers from the store alone and then warms the cache. */
    method GetAllPointers(times: seq<int>)
      returns (all: seq<FlagStruct>, ghost order: seq<string>, ghost fs: seq<Flag>, ghost ms: set<object>,
               ghost ps: seq<FeatureFlag>)
      requires InOrder() && |store.table| <= |times|
      modifies Footprint()
      ensures InOrder() && fresh(Footprint() - old(Footprint()))
      ensures Listed(old(store.table), order, fs) && |fs| <= |times|
      ensures ValuesAre(all, fs, ms) && AllOutside(ms) && fresh(ms)
      ensures cache != null ==> |ps| == |fs| && Copies(ps, all)
      ensures Raw() == AfterPointerGetAll(Cfg(), old(Raw()), fs, ps, times)
    {
      hide InOrder, PutAll;
      all, order, fs, ms := ListStore();
      ps := WarmIfCached(all, fs, times, ms);
    }

    // ----- The operations -----

    /** The flags that seen has are not parts, and are what seen says. */
    ghost predicate Unmoved(seen: Snapshot)
      reads seen.Keys, Behind(seen.Keys), store, cache, metrics
    {
      forall p {:trigger seen[p]} :: p in seen ==> Free(p) && p.Value() == seen[p]
    }

    lemma ViewTable()
      ensures View().table == store.table && View().cache.Some? == (cache != null)
    {
    }

    lemma Settle(seen: Snapshot)
      requires Known(Raw(), seen) && Unmoved(seen)
      ensures AllOutside(Behind(Resident())) && View() == Shown(Raw(), seen)
    {
      assert forall p :: p in Resident() ==> p in seen && Free(p);
      ShownMore(Raw(), Look(Resident()), seen);
    }

    lemma Start() returns (seen: Snapshot)
      requires AllOutside(Behind(Resident()))
      ensures seen == Look(Resident())
      ensures Known(Raw(), seen) && Unmoved(seen) && View() == Shown(Raw(), seen)
    {
      seen := Look(Resident());
    }

    lemma Join(b: Layered<FeatureFlag>, seen: Snapshot, p: FeatureFlag) returns (more: Snapshot)
      requires Known(b, seen) && Unmoved(seen) && Free(p)
      ensures more == seen[p := p.Value()]
      ensures Known(b, more) && Unmoved(more) && Shown(b, more) == Shown(b, seen)
    {
      more := seen[p := p.Value()];
      ShownMore(b, seen, more);
    }

    /** A hit returns the cached pointer itself, a miss a new flag. */
    method Get(key: string, t1: int, t2: int, t3: int) returns (r: Result<FeatureFlag, Error>)
      requires Valid()
      modifies Footprint()
      ensures Valid() && fresh(Footprint() - old(Footprint()))
      ensures View() == AfterBackendGet(Cfg(), old(View()), key, t1, t2, t3)
      ensures match GetResult(Cfg(), old(View()), key, t1)
        case Err(e) => r == Err(e)
        case Ok(f) => r.Ok? && Free(r.value) && r.value.Value() == f
      ensures match Cached(Cfg(), old(Raw()), key, t1)
        case Some(p) => r == Ok(p) && Parts(p) <= old(Behind(Resident()))
        case None => r.Ok? ==> fresh(Parts(r.value))
      ensures Raw() == AfterLayeredGet(Cfg(), old(Raw()), key, t1, t2, t3,
                if r.Ok? && Cached(Cfg(), old(Raw()), key, t1).None? then Some(r.value) else None)
    {
      hide InOrder, AfterLayeredGet, Deref;
      ghost var b := Raw();
      ghost var seen := Start();
      ghost var fill;
      r, fill := GetPointer(key, t1, t2, t3);
      assert Unmoved(seen);
      if fill.Some? {
        seen := Join(b, seen, fill.value);
      }
      ShownGet(Cfg(), b, seen, key, t1, t2, t3, fill);
      Settle(seen);
    }

    /** Set caches the caller's copy of the flag, metadata and all. */
    method Set(flag: FlagStruct, now: int, t: int) returns (err: Option<Error>, ghost kept: Option<FeatureFlag>)
      requires Valid() && now > 0 && Foreign(flag)
      modifies Footprint()
      ensures Valid() && fresh(Footprint() - old(Footprint()))
      ensures err == StoreSpec.SetError(flag.Value())
      ensures View() == AfterBackendSet(Cfg(), old(View()), old(flag.Value()), now, t)
      ensures Resident() <= old(Resident()) + if kept.Some? then {kept.value} else {}
      ensures kept.Some? <==> err.None? && cache != null
      ensures kept.Some? ==> fresh(kept.value) && kept.value.s == flag && Holds(flag.key, flag, t)
      ensures Raw() == AfterLayeredSet(Cfg(), old(Raw()), old(flag.Value()), now, t, kept)
    {
      hide InOrder, AfterLayeredSet, Deref;
      ghost var b, value := Raw(), flag.Value();
      ghost var seen := Start();
      err, kept := SetPointer(flag, now, t);
      assert Unmoved(seen);
      if kept.Some? {
        seen := Join(b, seen, kept.value);
      }
      assert flag.Value() == value;
      ShownSet(Cfg(), b, seen, value, now, t, kept);
      Settle(seen);
    }

    method Delete(key: string) returns (err: Option<Error>)
      requires Valid()
      modifies Footprint()
      ensures Valid() && fresh(Footprint() - old(Footprint()))
      ensures err == StoreSpec.DeleteError(old(store.table), key)
      ensures View() == AfterBackendDelete(old(View()), key)
      ensures Raw() == AfterBackendDelete(old(Raw()), key)
    {
      hide InOrder, AfterBackendDelete, Deref;
      ghost var b := Raw();
      ghost var seen := Start();
      err := DeletePointer(key);
      assert Unmoved(seen);
      ShownDelete(b, seen, key);
      Settle(seen);
    }

    /** GetAll answers with clones, and caches a copy of each behind a pointer of its own. */
    method GetAll(times: seq<int>)
      returns (all: seq<FlagStruct>, ghost order: seq<string>, ghost fs: seq<Flag>, ghost ms: set<object>,
               ghost ps: seq<FeatureFlag>)
      requires Valid() && |store.table| <= |times|
      modifies Footprint()
      ensures Valid() && fresh(Footprint() - old(Footprint()))
      ensures Listed(old(store.table), order, fs) && |fs| <= |times|
      ensures ValuesAre(all, fs, ms) && AllOutside(ms) && fresh(ms)
      ensures cache != null ==> |ps| == |fs| && Copies(ps, all)
      ensures View() == AfterBackendGetAll(Cfg(), old(View()), fs, times)
      ensures Raw() == AfterPointerGetAll(Cfg(), old(Raw()), fs, ps, times)
    {
      hide InOrder, PutAll, WarmAll, Deref;
      ghost var b := Raw();
      ghost var seen := Start();
      all, order, fs, ms, ps := GetAllPointers(times);
      assert Unmoved(seen);
      if cache != null {
        seen := JoinAll(b, seen, all, fs, ms, ps);
      }
      ShownGetAll(Cfg(), b, seen, fs, ps, times);
      Settle(seen);
    }

    lemma JoinAll(b: Layered<FeatureFlag>, seen: Snapshot, all: seq<FlagStruct>, fs: seq<Flag>, ms: set<object>,
                  ps: seq<FeatureFlag>)
      returns (more: Snapshot)
      requires Known(b, seen) && Unmoved(seen) && ValuesAre(all, fs, ms) && AllOutside(ms)
      requires |ps| == |all| && forall i :: 0 <= i < |ps| ==> Outside(ps[i]) && ps[i].s == all[i]
      ensures Known(b, more) && Unmoved(more) && Shown(b, more) == Shown(b, seen)
      ensures forall i :: 0 <= i < |ps| ==> ps[i] in more && more[ps[i]] == fs[i]
    {
      more := seen + map p | p in ps :: p.Value();
      forall p | p in ps ensures Free(p) {
        var i :| 0 <= i < |ps| && ps[i] == p;
        assert all[i].Value() == fs[i];
      }
      ShownMore(b, seen, more);
    }

    /** Close empties the in-memory store. What is in the cache stays there. */
    method Close()
      requires Valid()
      modifies store
      ensures Valid() && Footprint() == old(Footprint())
      ensures View() == old(View()).(table := map[]) && Raw() == old(Raw()).(table := map[])
    {
      hide InOrder, Deref;
      ghost var seen := Start();
      ClosePointer();
      assert Unmoved(seen);
      Settle(seen);
    }

    /** One firing of the cache's cleanup ticker. */
    method CleanUp(now: int)
      requires Valid()
      modifies Footprint()
      ensures Valid() && Footprint() == old(Footprint())
      ensures View() == AfterBackendCleanup(Cfg(), old(View()), now)
      ensures Raw() == AfterBackendCleanup(Cfg(), old(Raw()), now)
    {
      hide InOrder, AfterBackendCleanup, Deref;
      ghost var b := Raw();
      ghost var seen := Start();
      SweepPointers(now);
      assert Unmoved(seen);
      ShownCleanup(Cfg(), b, seen, now);
      Settle(seen);
    }
  }

  lemma EnumeratesKeys(order: seq<string>, m: StoreSpec.Table)
    requires StoreSpec.Enumerates(order, m)
    ensures |order| == |m| && forall k :: k in order ==> k in m
  {
    ElementsSize(order);
    assert |m.Keys| == |m|;
    assert forall k :: k in order ==> k in Elements(order);
  }

  method ListClones(store: Store)
    returns (all: seq<FlagStruct>, ghost order: seq<string>, ghost fs: seq<Flag>, ghost ms: set<object>)
    requires store.Valid()
    ensures Listed(store.table, order, fs)
    ensures ValuesAre(all, fs, ms) && fresh(ms)
  {
    hide NoDup, Store.Valid;
    all, order := store.GetAll();
    EnumeratesKeys(order, store.table);
    fs := StoreSpec.Listing(store.table, order);
    ms := MapsOf(all);
  }

  ghost function MapsOf(all: seq<FlagStruct>): (ms: set<object>)
    ensures forall i {:trigger all[i]} :: 0 <= i < |all| && all[i].metadata != null ==> all[i].metadata in ms
    ensures forall o :: o in ms ==> exists i {:trigger all[i]} :: 0 <= i < |all| && o == all[i].metadata
  {
    set i | 0 <= i < |all| && all[i].metadata != null :: all[i].metadata
  }

  /** fs are the values of the structs, whose metadata maps are among ms. */
  ghost predicate ValuesAre(all: seq<FlagStruct>, fs: seq<Flag>, ms: set<object>)
    reads ms
  {
    |all| == |fs| && forall i {:trigger all[i]} :: 0 <= i < |all| ==>
      (all[i].metadata != null ==> all[i].metadata in ms) && all[i].Value() == fs[i]
  }

  /** Unlike the in-memory store, the cache does not isolate its flags: what a caller writes through the
      pointer that a hit returned is what the next hit returns, whatever the store holds. */
  method WriteThroughHit(cache: Cache<FeatureFlag>, key: string, s: FlagStruct, t1: int, t2: int, t3: int, t4: int)
    returns (first: Option<FeatureFlag>, again: Option<FeatureFlag>)
    requires cache.Valid() && Lookup(cache.Cfg(), cache.model, key, t1).Some?
    requires Lookup(cache.Cfg(), cache.model, key, t3).Some?
    requires cache.model.items[key].value !in cache.Repr
    modifies cache.Repr, cache.Hooks(), cache.model.items[key].value
    ensures first == again == Some(old(cache.model).items[key].value)
    ensures again.value.s == s
  {
    hide Cache.InStep, LruSpec.Valid;
    cache.ModelValid();
    PromoteValid(cache.Cfg(), cache.model, key);
    first := cache.Get(key, t1, t2);
    first.value.s := s;
    again := cache.Get(key, t3, t4);
  }

  /** Two Gets in a row of a flag that the store has and the cache does not: the second returns the pointer
      that the first one made and cached, and the store is asked once. */
  method GetTwice(cs: CachedStore, key: string, t1: int, t2: int, t3: int, u1: int, u2: int, u3: int)
    returns (r: Result<FeatureFlag, Error>, q: Result<FeatureFlag, Error>)
    requires cs.Valid() && cs.cache != null && key != "" && key in cs.store.table
    requires Cached(cs.Cfg(), cs.Raw(), key, t1).None? && (cs.Cfg().ttl > 0 ==> u1 - t3 <= cs.Cfg().ttl)
    modifies cs.Footprint()
    ensures cs.Valid() && r.Ok? && q == r && fresh(r.value)
    ensures cs.Tally().hits == old(cs.Tally()).hits + 1 && cs.Tally().misses == old(cs.Tally()).misses + 1
    ensures cs.Tally().storageOperations == old(cs.Tally()).storageOperations + 1
  {
    hide CachedStore.InOrder, CachedStore.View, AfterLayeredGet;
    RawValid(cs);
    GetsTheFlag(cs, key, t1);
    r := cs.Get(key, t1, t2, t3);
    MissFills(cs.Cfg(), old(cs.Raw()), key, t1, t2, t3, r.value);
    RawValid(cs);
    ghost var b := cs.Raw();
    q := cs.Get(key, u1, u2, u3);
    HitStays(cs.Cfg(), b, key, u1, u2, u3, r.value, u1);
  }

  lemma RawValid(cs: CachedStore)
    requires cs.InOrder()
    ensures cs.cache != null ==> cs.Raw().cache.Some? && LruSpec.Valid(cs.Cfg(), cs.Raw().cache.value)
  {
    if cs.cache != null {
      cs.cache.ModelValid();
    }
  }

  lemma GetsTheFlag(cs: CachedStore, key: string, t1: int)
    requires key != "" && key in cs.store.table && Cached(cs.Cfg(), cs.Raw(), key, t1).None?
    ensures GetResult(cs.Cfg(), cs.View(), key, t1).Ok?
  {
    if cs.cache != null {
      DerefLookup(cs.Cfg(), cs.cache.model, Look(cs.Resident()), key, t1);
    }
  }
}
