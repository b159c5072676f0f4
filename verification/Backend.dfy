/** The cached store as a value: a table, an optional cache over it, and the counters. This is what the
    methods of featureflag/cache/store.go compute when no other call runs in between. */
module Backend {
  import opened Prelude
  import opened Flags
  import opened LruSpec
  import StoreSpec

  /** RecordCacheHit, RecordCacheMiss and RecordStorageOperation; evictions are counted in the cache. */
  datatype Counts = Counts(hits: nat, misses: nat, storageOperations: nat, storageSuccesses: nat)

  /** cache None: caching is disabled. V is what the cache holds: flags, or pointers to them. */
  datatype Layered<V> = Backend(table: StoreSpec.Table, cache: Option<Lru<V>>, counts: Counts)

  type Backend = Layered<Flag>

  /** A new cached store over the given table. */
  function Over(table: StoreSpec.Table, enabled: bool): Backend {
    Backend(table, if enabled then Some(Empty()) else None, Counts(0, 0, 0, 0))
  }

  function Fresh(enabled: bool): Backend {
    Over(map[], enabled)
  }

  function Bump(c: Counts, ok: bool): Counts {
    c.(storageOperations := c.storageOperations + 1, storageSuccesses := c.storageSuccesses + if ok then 1 else 0)
  }

  // ----- Get, Set, Delete, GetAll -----

  function Cached<V>(cfg: Config, b: Layered<V>, key: string, now: int): Option<V> {
    if b.cache.Some? then Lookup(cfg, b.cache.value, key, now) else None
  }

  function GetResult(cfg: Config, b: Backend, key: string, now: int): Result<Flag, Error> {
    match Cached(cfg, b, key, now)
    case Some(f) => Ok(f)
    case None => StoreSpec.Get(b.table, key)
  }

  /** t1 and t2 are cache.Get's readings of the clock, t3 is cache.Set's after a miss; fill is what is then
      put into the cache, if the store has the flag. */
  function AfterLayeredGet<V>(cfg: Config, b: Layered<V>, key: string, t1: int, t2: int, t3: int,
                              fill: Option<V>): Layered<V> {
    if b.cache.None? then b.(counts := Bump(b.counts, fill.Some?))
    else
      var c := AfterGet(cfg, b.cache.value, key, t1, t2);
      if Cached(cfg, b, key, t1).Some? then
        b.(cache := Some(c), counts := b.counts.(hits := b.counts.hits + 1))
      else
        b.(cache := Some(if fill.Some? then Put(cfg, c, key, fill.value, t3) else c),
           counts := Bump(b.counts.(misses := b.counts.misses + 1), fill.Some?))
  }

  function AfterBackendGet(cfg: Config, b: Backend, key: string, t1: int, t2: int, t3: int): Backend {
    var r := StoreSpec.Get(b.table, key);
    AfterLayeredGet(cfg, b, key, t1, t2, t3, if r.Ok? then Some(r.value) else None)
  }

  /** keep is what goes into the cache on success: the caller's copy of the flag, not the one the store stamped. */
  function AfterLayeredSet<V>(cfg: Config, b: Layered<V>, f: Flag, now: int, t: int, keep: Option<V>): Layered<V> {
    var ok := StoreSpec.SetError(f).None?;
    Backend(StoreSpec.Set(b.table, f, now),
            if ok && b.cache.Some? && keep.Some? then Some(Put(cfg, b.cache.value, f.key, keep.value, t)) else b.cache,
            Bump(b.counts, ok))
  }

  function AfterBackendSet(cfg: Config, b: Backend, f: Flag, now: int, t: int): Backend {
    AfterLayeredSet(cfg, b, f, now, t, Some(f))
  }

  function AfterBackendDelete<V>(b: Layered<V>, key: string): Layered<V> {
    var ok := StoreSpec.DeleteError(b.table, key).None?;
    Backend(StoreSpec.Delete(b.table, key),
            if ok && b.cache.Some? then Some(Delete(b.cache.value, key)) else b.cache,
            Bump(b.counts, ok))
  }

  /** cache.Set for every flag of a list; times are the readings of the clock. */
  function WarmAll(cfg: Config, c: Lru<Flag>, fs: seq<Flag>, times: seq<int>): Lru<Flag>
    requires |fs| <= |times|
  {
    if fs == [] then c
    else
      var n := |fs| - 1;
      Put(cfg, WarmAll(cfg, c, fs[..n], times), fs[n].key, fs[n], times[n])
  }

  function AfterBackendGetAll(cfg: Config, b: Backend, fs: seq<Flag>, times: seq<int>): Backend
    requires |fs| <= |times|
  {
    b.(cache := if b.cache.Some? then Some(WarmAll(cfg, b.cache.value, fs, times)) else None,
       counts := Bump(b.counts, true))
  }

  function AfterBackendCleanup<V>(cfg: Config, b: Layered<V>, now: int): Layered<V> {
    if b.cache.Some? then b.(cache := Some(Sweep(cfg, b.cache.value, now))) else b
  }

  // ----- Coherence -----

  /** Every cached entry, expired or not, has its key in the store and the store's content. */
  ghost predicate Coherent(m: StoreSpec.Table, c: Lru<Flag>) {
    forall k :: k in c.items ==> k in m && Content(c.items[k].value) == Content(m[k])
  }

  ghost predicate Sound(cfg: Config, b: Backend) {
    && StoreSpec.Keyed(b.table)
    && (b.cache.Some? ==> Valid(cfg, b.cache.value) && Coherent(b.table, b.cache.value))
  }

  /** The cache went from c to r and lost nothing unrecorded: new items = growth + evictions. */
  ghost predicate Conserves<V>(c: Lru<V>, r: Lru<V>) {
    |r.items| + r.evicted - r.issued == |c.items| + c.evicted - c.issued
  }

  /** A good step of the cache beside the table m. */
  ghost predicate GoodStep(cfg: Config, m: StoreSpec.Table, c: Lru<Flag>, r: Lru<Flag>) {
    Valid(cfg, r) && Coherent(m, r) && Conserves(c, r)
  }

  lemma PutStep(cfg: Config, m: StoreSpec.Table, c: Lru<Flag>, k: string, f: Flag, t: int)
    requires Valid(cfg, c) && k in m && Content(f) == Content(m[k])
    requires forall j :: j in c.items && j != k ==> j in m && Content(c.items[j].value) == Content(m[j])
    ensures GoodStep(cfg, m, c, Put(cfg, c, k, f, t))
  {
    PutValid(cfg, c, k, f, t);
  }

  lemma RemoveStep(cfg: Config, m: StoreSpec.Table, c: Lru<Flag>, k: string)
    requires Valid(cfg, c)
    requires forall j :: j in c.items && j != k ==> j in m && Content(c.items[j].value) == Content(m[j])
    ensures GoodStep(cfg, m, c, Delete(c, k))
  {
    DeleteValid(cfg, c, k);
  }

  lemma LookStep(cfg: Config, m: StoreSpec.Table, c: Lru<Flag>, k: string, t1: int, t2: int)
    requires Valid(cfg, c) && Coherent(m, c)
    ensures GoodStep(cfg, m, c, AfterGet(cfg, c, k, t1, t2))
  {
    match ProbeFor(cfg, c, k, t1)
    case Absent =>
    case Expired => RemoveStep(cfg, m, c, k);
    case Found(_, _) => PromoteValid(cfg, c, k);
  }

  lemma GetStep(cfg: Config, b: Backend, key: string, t1: int, t2: int, t3: int)
    requires Sound(cfg, b) && b.cache.Some?
    ensures var n := AfterBackendGet(cfg, b, key, t1, t2, t3);
      n.cache.Some? && GoodStep(cfg, b.table, b.cache.value, n.cache.value)
  {
    var c, r := AfterGet(cfg, b.cache.value, key, t1, t2), StoreSpec.Get(b.table, key);
    LookStep(cfg, b.table, b.cache.value, key, t1, t2);
    if r.Ok? {
      PutStep(cfg, b.table, c, key, r.value, t3);
    }
  }

  /** A Get answers with the store's content or the store's error, cached or not. */
  lemma GetAgrees(cfg: Config, b: Backend, key: string, t1: int)
    requires Sound(cfg, b)
    ensures match StoreSpec.Get(b.table, key)
      case Err(e) => GetResult(cfg, b, key, t1) == Err(e)
      case Ok(f) => GetResult(cfg, b, key, t1).Ok? && Content(GetResult(cfg, b, key, t1).value) == Content(f)
  {
  }

  lemma SetStep(cfg: Config, b: Backend, f: Flag, now: int, t: int)
    requires Sound(cfg, b) && b.cache.Some?
    ensures var n := AfterBackendSet(cfg, b, f, now, t);
      n.cache.Some? && GoodStep(cfg, n.table, b.cache.value, n.cache.value)
  {
    if StoreSpec.SetError(f).None? {
      PutStep(cfg, StoreSpec.Set(b.table, f, now), b.cache.value, f.key, f, t);
    }
  }

  lemma DeleteStep(cfg: Config, b: Backend, key: string)
    requires Sound(cfg, b) && b.cache.Some?
    ensures var n := AfterBackendDelete(b, key);
      n.cache.Some? && GoodStep(cfg, n.table, b.cache.value, n.cache.value)
  {
    if StoreSpec.DeleteError(b.table, key).None? {
      RemoveStep(cfg, StoreSpec.Delete(b.table, key), b.cache.value, key);
    }
  }

  lemma {:induction false} WarmStep(cfg: Config, m: StoreSpec.Table, c: Lru<Flag>, fs: seq<Flag>, times: seq<int>)
    requires |fs| <= |times| && Valid(cfg, c) && Coherent(m, c)
    requires forall f :: f in fs ==> f.key in m && Content(f) == Content(m[f.key])
    ensures GoodStep(cfg, m, c, WarmAll(cfg, c, fs, times))
  {
    if fs != [] {
      var n := |fs| - 1;
      assert fs[n] in fs && forall f :: f in fs[..n] ==> f in fs;
      WarmStep(cfg, m, c, fs[..n], times);
      PutStep(cfg, m, WarmAll(cfg, c, fs[..n], times), fs[n].key, fs[n], times[n]);
    }
  }

  lemma GetAllStep(cfg: Config, b: Backend, order: seq<string>, times: seq<int>)
    requires Sound(cfg, b) && StoreSpec.Enumerates(order, b.table) && |order| <= |times|
    ensures forall k :: k in order ==> k in b.table
    ensures b.cache.Some? ==>
      GoodStep(cfg, b.table, b.cache.value, WarmAll(cfg, b.cache.value, StoreSpec.Listing(b.table, order), times))
  {
    assert forall k :: k in order ==> k in Elements(order);
    if b.cache.Some? {
      WarmStep(cfg, b.table, b.cache.value, StoreSpec.Listing(b.table, order), times);
    }
  }

  lemma CleanupStep(cfg: Config, m: StoreSpec.Table, c: Lru<Flag>, now: int)
    requires Valid(cfg, c) && Coherent(m, c)
    ensures GoodStep(cfg, m, c, Sweep(cfg, c, now))
  {
    RemoveValid(cfg, c, StaleKeys(cfg, c, now));
  }

  // ----- Conservation over whole runs -----

  datatype Request =
    | RGet(key: string, t1: int, t2: int, t3: int)
    | RSet(flag: Flag, now: int, t: int)
    | RDelete(key: string)
    | RGetAll(order: seq<string>, times: seq<int>)
    | RCleanup(now: int)

  /** The environment's part of a request: a map iteration order is one of the present table. */
  ghost predicate Possible(b: Backend, r: Request) {
    r.RGetAll? ==> StoreSpec.Enumerates(r.order, b.table) && |r.order| <= |r.times|
  }

  ghost function Serve(cfg: Config, b: Backend, r: Request): Backend {
    match r
    case RGet(key, t1, t2, t3) => AfterBackendGet(cfg, b, key, t1, t2, t3)
    case RSet(f, now, t) => AfterBackendSet(cfg, b, f, now, t)
    case RDelete(key) => AfterBackendDelete(b, key)
    case RGetAll(order, times) =>
      if (forall k :: k in order ==> k in b.table) && |order| <= |times|
      then AfterBackendGetAll(cfg, b, StoreSpec.Listing(b.table, order), times) else b
    case RCleanup(now) => AfterBackendCleanup(cfg, b, now)
  }

  ghost function ServeAll(cfg: Config, b: Backend, rs: seq<Request>): Backend {
    if rs == [] then b else Serve(cfg, ServeAll(cfg, b, rs[..|rs| - 1]), rs[|rs| - 1])
  }

  /** Every request of a run is possible where it happens. */
  ghost predicate AllPossible(cfg: Config, b: Backend, rs: seq<Request>) {
    rs != [] ==>
      AllPossible(cfg, b, rs[..|rs| - 1]) && Possible(ServeAll(cfg, b, rs[..|rs| - 1]), rs[|rs| - 1])
  }

  /** How many requests of a run are Gets. */
  ghost function Gets(rs: seq<Request>): nat {
    if rs == [] then 0 else Gets(rs[..|rs| - 1]) + if rs[|rs| - 1].RGet? then 1 else 0
  }

  /** How many go straight to the store: Sets, Deletes and GetAlls. */
  ghost function Direct(rs: seq<Request>): nat {
    if rs == [] then 0
    else
      var r := rs[|rs| - 1];
      Direct(rs[..|rs| - 1]) + if r.RSet? || r.RDelete? || r.RGetAll? then 1 else 0
  }

  /** The store has what the request wants from it. */
  ghost predicate Succeeds(cfg: Config, b: Backend, r: Request) {
    match r
    case RGet(key, t1, _, _) => Cached(cfg, b, key, t1).None? && key != "" && key in b.table
    case RSet(f, _, _) => ValidKey(f.key)
    case RDelete(key) => key != "" && key in b.table
    case RGetAll(_, _) => true
    case RCleanup(_) => false
  }

  /** How many calls of the store succeed in a run. */
  ghost function Successes(cfg: Config, b: Backend, rs: seq<Request>): nat {
    if rs == [] then 0
    else
      var init := rs[..|rs| - 1];
      Successes(cfg, b, init) + if Succeeds(cfg, ServeAll(cfg, b, init), rs[|rs| - 1]) then 1 else 0
  }

  lemma ServeStep(cfg: Config, b: Backend, r: Request)
    requires Sound(cfg, b) && Possible(b, r)
    ensures var n := Serve(cfg, b, r);
      && StoreSpec.Keyed(n.table) && n.cache.Some? == b.cache.Some?
      && (b.cache.Some? ==> GoodStep(cfg, n.table, b.cache.value, n.cache.value))
  {
    hide GoodStep;
    match r
    case RGet(key, t1, t2, t3) => if b.cache.Some? { GetStep(cfg, b, key, t1, t2, t3); }
    case RSet(f, now, t) =>
      StoreSpec.SetKeyed(b.table, f, now);
      if b.cache.Some? { SetStep(cfg, b, f, now, t); }
    case RDelete(key) =>
      if b.cache.Some? { DeleteStep(cfg, b, key); }
    case RGetAll(order, times) => GetAllStep(cfg, b, order, times);
    case RCleanup(now) => if b.cache.Some? { CleanupStep(cfg, b.table, b.cache.value, now); }
  }

  /** In every run of a cached store, whatever flags its store holds to begin with, the cache stays coherent
      with the store, on the success and on the failure paths, and conserves its items. */
  lemma {:induction false} AlwaysCoherent(cfg: Config, table: StoreSpec.Table, enabled: bool, rs: seq<Request>)
    requires StoreSpec.Keyed(table) && AllPossible(cfg, Over(table, enabled), rs)
    ensures var b := ServeAll(cfg, Over(table, enabled), rs);
      && Sound(cfg, b) && b.cache.Some? == enabled
      && (enabled ==> b.cache.value.issued == |b.cache.value.items| + b.cache.value.evicted)
  {
    if rs != [] {
      AlwaysCoherent(cfg, table, enabled, rs[..|rs| - 1]);
      ServeStep(cfg, ServeAll(cfg, Over(table, enabled), rs[..|rs| - 1]), rs[|rs| - 1]);
    }
  }

  /** So in every run a Get answers with the store's content or the store's error, cached or not. */
  lemma EveryGetAgrees(cfg: Config, table: StoreSpec.Table, enabled: bool, rs: seq<Request>, b: Backend, key: string,
                       t1: int)
    requires StoreSpec.Keyed(table) && AllPossible(cfg, Over(table, enabled), rs)
    requires b == ServeAll(cfg, Over(table, enabled), rs)
    ensures match StoreSpec.Get(b.table, key)
      case Err(e) => GetResult(cfg, b, key, t1) == Err(e)
      case Ok(f) => GetResult(cfg, b, key, t1).Ok? && Content(GetResult(cfg, b, key, t1).value) == Content(f)
  {
    AlwaysCoherent(cfg, table, enabled, rs);
    GetAgrees(cfg, b, key, t1);
  }

  lemma ServeCounts(cfg: Config, b: Backend, r: Request)
    requires Sound(cfg, b) && Possible(b, r) && b.cache.Some?
    ensures var n := Serve(cfg, b, r).counts;
      && n.hits + n.misses == b.counts.hits + b.counts.misses + (if r.RGet? then 1 else 0)
      && n.storageOperations - n.misses == b.counts.storageOperations - b.counts.misses
           + (if r.RSet? || r.RDelete? || r.RGetAll? then 1 else 0)
      && n.storageSuccesses == b.counts.storageSuccesses + (if Succeeds(cfg, b, r) then 1 else 0)
  {
    if r.RSet? {
      ValidationMeaning(r.flag.key);
    }
    if r.RGetAll? {
      GetAllStep(cfg, b, r.order, r.times);
    }
  }

  /** Over every run with caching on: items made for new keys = size + evictions, hits + misses = Gets,
      and the store was asked once per miss, Set, Delete and GetAll; the successes are those where it had
      what was wanted. */
  lemma {:induction false} Conservation(cfg: Config, table: StoreSpec.Table, rs: seq<Request>, b: Backend)
    requires StoreSpec.Keyed(table) && AllPossible(cfg, Over(table, true), rs)
    requires b == ServeAll(cfg, Over(table, true), rs)
    ensures b.cache.Some? && b.cache.value.issued == |b.cache.value.items| + b.cache.value.evicted
    ensures b.counts.hits + b.counts.misses == Gets(rs)
    ensures b.counts.storageOperations == b.counts.misses + Direct(rs)
    ensures b.counts.storageSuccesses == Successes(cfg, Over(table, true), rs) <= b.counts.storageOperations
  {
    AlwaysCoherent(cfg, table, true, rs);
    if rs != [] {
      var init := rs[..|rs| - 1];
      var before := ServeAll(cfg, Over(table, true), init);
      Conservation(cfg, table, init, before);
      AlwaysCoherent(cfg, table, true, init);
      ServeCounts(cfg, before, rs[|rs| - 1]);
    }
  }

  // ----- What a miss, a listing and a cleanup leave in the cache -----

  /** The key is cached, with v, and stays so for a ttl after t. */
  ghost predicate CachedSince<V>(cfg: Config, b: Layered<V>, key: string, v: V, t: int) {
    forall now :: (cfg.ttl > 0 ==> now - t <= cfg.ttl) ==> Cached(cfg, b, key, now) == Some(v)
  }

  /** A Get that missed leaves in the cache what it found in the store (the flag, or a pointer to it). */
  lemma MissFills<V>(cfg: Config, b: Layered<V>, key: string, t1: int, t2: int, t3: int, v: V)
    requires b.cache.Some? && Valid(cfg, b.cache.value) && Cached(cfg, b, key, t1).None?
    ensures CachedSince(cfg, AfterLayeredGet(cfg, b, key, t1, t2, t3, Some(v)), key, v, t3)
    ensures AfterLayeredGet(cfg, b, key, t1, t2, t3, Some(v)).counts
         == b.counts.(misses := b.counts.misses + 1, storageOperations := b.counts.storageOperations + 1,
                      storageSuccesses := b.counts.storageSuccesses + 1)
  {
    hide Put, AfterGet, Valid;
    AfterGetMeaning(cfg, b.cache.value, key, t1, t2);
    PutValid(cfg, AfterGet(cfg, b.cache.value, key, t1, t2), key, v, t3);
  }

  /** A Set that succeeded leaves in the cache what it was given, under the flag's key. */
  lemma SetFills<V>(cfg: Config, b: Layered<V>, f: Flag, now: int, t: int, v: V)
    requires b.cache.Some? && Valid(cfg, b.cache.value) && ValidKey(f.key)
    ensures CachedSince(cfg, AfterLayeredSet(cfg, b, f, now, t, Some(v)), f.key, v, t)
  {
    ValidationMeaning(f.key);
    PutValid(cfg, b.cache.value, f.key, v, t);
  }

  /** A Get that hits asks nobody, and what it hits stays cached. */
  lemma HitStays<V>(cfg: Config, b: Layered<V>, key: string, t1: int, t2: int, t3: int, v: V, now: int)
    requires b.cache.Some? && Valid(cfg, b.cache.value) && Cached(cfg, b, key, t1) == Some(v)
    ensures var n := AfterLayeredGet(cfg, b, key, t1, t2, t3, None);
      && n.table == b.table && n.counts == b.counts.(hits := b.counts.hits + 1)
      && Cached(cfg, n, key, now) == Cached(cfg, b, key, now)
  {
    AfterGetMeaning(cfg, b.cache.value, key, t1, t2);
  }

  /** Two Gets in a row of a key that the store has and the cache does not: one miss, one hit, one question to
      the store, and the same answer. */
  lemma GetTwice(cfg: Config, b: Backend, key: string, t1: int, t2: int, t3: int, u1: int, u2: int, u3: int)
    requires b.cache.Some? && Valid(cfg, b.cache.value) && Cached(cfg, b, key, t1).None? && key != "" && key in b.table
    requires cfg.ttl > 0 ==> u1 - t3 <= cfg.ttl
    ensures var n := AfterBackendGet(cfg, b, key, t1, t2, t3);
      var m := AfterBackendGet(cfg, n, key, u1, u2, u3);
      && GetResult(cfg, b, key, t1) == GetResult(cfg, n, key, u1) == Ok(b.table[key])
      && m.counts.hits == b.counts.hits + 1 && m.counts.misses == b.counts.misses + 1
      && m.counts.storageOperations == b.counts.storageOperations + 1
  {
    MissFills(cfg, b, key, t1, t2, t3, b.table[key]);
    assert Cached(cfg, AfterBackendGet(cfg, b, key, t1, t2, t3), key, u1) == Some(b.table[key]);
  }

  ghost predicate DistinctKeys(fs: seq<Flag>) {
    forall i, j :: 0 <= i < j < |fs| ==> fs[i].key != fs[j].key
  }

  /** The last m flags of the list are in front, the last one first. */
  ghost predicate InFront(c: Lru<Flag>, fs: seq<Flag>, m: nat) {
    m <= |fs| && m <= |c.order|
    && forall j :: 0 <= j < m ==>
         c.order[j] == fs[|fs| - 1 - j].key && c.order[j] in c.items && c.items[c.order[j]].value == fs[|fs| - 1 - j]
  }

  /** Warming leaves in the cache all flags of the list, or the last ones if they do not all fit. */
  lemma {:induction false} WarmFills(cfg: Config, c: Lru<Flag>, fs: seq<Flag>, times: seq<int>, m: nat)
    requires |fs| <= |times| && Valid(cfg, c) && DistinctKeys(fs)
    requires m <= |fs| && (cfg.maxSize > 0 ==> m <= cfg.maxSize)
    ensures Valid(cfg, WarmAll(cfg, c, fs, times)) && InFront(WarmAll(cfg, c, fs, times), fs, m)
  {
    hide Put, Valid;
    if fs != [] {
      var n := |fs| - 1;
      var init := fs[..n];
      var before := if m == 0 then 0 else m - 1;
      WarmFills(cfg, c, init, times, before);
      var w := WarmAll(cfg, c, init, times);
      PutValid(cfg, w, fs[n].key, fs[n], times[n]);
      if m > 0 {
        PutFront(cfg, w, fs[n].key, fs[n], times[n], before);
        PutInFront(cfg, w, fs, times[n], before);
      }
    }
  }

  lemma PutInFront(cfg: Config, w: Lru<Flag>, fs: seq<Flag>, t: int, m: nat)
    requires fs != [] && DistinctKeys(fs) && Valid(cfg, w) && InFront(w, fs[..|fs| - 1], m)
    requires var f := fs[|fs| - 1];
      var r := Put(cfg, w, f.key, f, t);
      |r.order| > m && r.order[..m + 1] == [f.key] + w.order[..m]
    ensures InFront(Put(cfg, w, fs[|fs| - 1].key, fs[|fs| - 1], t), fs, m + 1)
  {
    hide Put;
    var f := fs[|fs| - 1];
    var r := Put(cfg, w, f.key, f, t);
    PutValid(cfg, w, f.key, f, t);
    forall j | 0 <= j < m + 1
      ensures r.order[j] == fs[|fs| - 1 - j].key
      ensures r.order[j] in r.items && r.items[r.order[j]].value == fs[|fs| - 1 - j]
    {
      assert r.order[j] == r.order[..m + 1][j];
      ValidMember(cfg, r, j);
    }
  }

  lemma ValidMember(cfg: Config, c: Lru<Flag>, j: nat)
    requires Valid(cfg, c) && j < |c.order|
    ensures c.order[j] in c.items
  {
  }

  /** A cleanup leaves exactly the entries that have not expired. */
  lemma CleanupMeaning<V>(cfg: Config, b: Layered<V>, now: int)
    requires b.cache.Some?
    ensures var n := AfterBackendCleanup(cfg, b, now);
      && n.table == b.table && n.counts == b.counts && n.cache.Some?
      && (forall k :: k in n.cache.value.items <==>
            k in b.cache.value.items && (cfg.ttl > 0 ==> now <= b.cache.value.items[k].expiresAt))
      && (forall k :: k in n.cache.value.items ==> n.cache.value.items[k] == b.cache.value.items[k])
  {
  }
}
