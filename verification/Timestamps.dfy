/** When a cached flag has the stored timestamps too. The cache keeps the caller's copy of a flag that was
    set, and the store's copy of one that was looked up or listed. */
module Timestamps {
  import opened Prelude
  import opened Flags
  import opened LruSpec
  import opened Backend
  import StoreSpec

  /** The flag comes with the timestamps that the store will give it: it was stamped at the store's reading
      of the clock, and brings the creation time of the stored flag if there is one. */
  predicate Brings(m: StoreSpec.Table, f: Flag, now: int) {
    f.updatedAt == now && (if f.key in m then f.createdAt == m[f.key].createdAt else f.createdAt != 0)
  }

  lemma BringsIsStored(m: StoreSpec.Table, f: Flag, now: int)
    requires StoreSpec.Valid(m) && now != 0
    ensures Brings(m, f, now) <==> StoreSpec.Stored(m, f, now) == f
  {
  }

  /** The last request of the run that put k into the cache was a Get that missed, a GetAll, or a Set of a
      flag with the store's timestamps. */
  ghost predicate LastPutIsExact(cfg: Config, b: Backend, rs: seq<Request>, k: string) {
    rs != [] ==>
      var init, r := rs[..|rs| - 1], rs[|rs| - 1];
      var before := ServeAll(cfg, b, init);
      match r
      case RSet(f, t, _) =>
        if f.key == k && StoreSpec.SetError(f).None?
        then Brings(before.table, f, t)
        else LastPutIsExact(cfg, b, init, k)
      case RGet(key, t1, _, _) => (key == k && Cached(cfg, before, k, t1).None?) || LastPutIsExact(cfg, b, init, k)
      case RGetAll(_, _) => true
      case _ => LastPutIsExact(cfg, b, init, k)
  }

  ghost predicate Clocked(rs: seq<Request>) {
    forall i :: 0 <= i < |rs| && rs[i].RSet? ==> rs[i].now > 0
  }

  // ----- What each request does to the entry of k -----

  ghost predicate SameEntry(b: Backend, n: Backend, k: string) {
    && n.cache.Some? && b.cache.Some?
    && (k in n.cache.value.items ==>
          && k in b.cache.value.items && n.cache.value.items[k].value == b.cache.value.items[k].value
          && k in n.table && k in b.table && n.table[k] == b.table[k])
  }

  ghost predicate ExactEntry(b: Backend, k: string) {
    b.cache.Some? && (k in b.cache.value.items ==> k in b.table && b.cache.value.items[k].value == b.table[k])
  }

  lemma GetEntry(cfg: Config, b: Backend, key: string, t1: int, t2: int, t3: int, k: string)
    requires Sound(cfg, b) && b.cache.Some?
    ensures var n := AfterBackendGet(cfg, b, key, t1, t2, t3);
      if key == k && Cached(cfg, b, k, t1).None? then ExactEntry(n, k) else SameEntry(b, n, k)
  {
    hide Put, Valid, AfterGet, Lookup, Conserves;
    var c, r := AfterGet(cfg, b.cache.value, key, t1, t2), StoreSpec.Get(b.table, key);
    LookStep(cfg, b.table, b.cache.value, key, t1, t2);
    LookEntry(cfg, b.cache.value, key, t1, t2, k);
    if r.Ok? {
      PutValid(cfg, c, key, r.value, t3);
    }
  }

  lemma LookEntry(cfg: Config, s: Lru<Flag>, key: string, t1: int, t2: int, k: string)
    ensures k in AfterGet(cfg, s, key, t1, t2).items ==>
              k in s.items && AfterGet(cfg, s, key, t1, t2).items[k].value == s.items[k].value
  {
  }

  lemma SetEntry(cfg: Config, b: Backend, f: Flag, now: int, t: int, k: string)
    requires Sound(cfg, b) && b.cache.Some? && StoreSpec.Valid(b.table) && now != 0
    ensures var n := AfterBackendSet(cfg, b, f, now, t);
      if f.key == k && StoreSpec.SetError(f).None?
      then n.cache.Some? && k in n.cache.value.items && k in n.table
           && (n.cache.value.items[k].value == n.table[k] <==> Brings(b.table, f, now))
      else SameEntry(b, n, k)
  {
    PutValid(cfg, b.cache.value, f.key, f, t);
    BringsIsStored(b.table, f, now);
  }

  /** fs are flags of the table. */
  ghost predicate Stocked(m: StoreSpec.Table, fs: seq<Flag>) {
    forall f :: f in fs ==> f.key in m && m[f.key] == f
  }

  lemma {:induction false} WarmEntries(cfg: Config, m: StoreSpec.Table, c: Lru<Flag>, fs: seq<Flag>, times: seq<int>,
                                       k: string)
    requires |fs| <= |times| && Valid(cfg, c) && Stocked(m, fs) && k in m && m[k].key == k && m[k] in fs
    ensures var r := WarmAll(cfg, c, fs, times);
      Valid(cfg, r) && (k in r.items ==> r.items[k].value == m[k])
  {
    hide Put, Valid;
    var n := |fs| - 1;
    var init, last := fs[..n], fs[n];
    assert fs == init + [last] && last in fs && Stocked(m, init);
    WarmValid(cfg, c, init, times);
    PutValid(cfg, WarmAll(cfg, c, init, times), last.key, last, times[n]);
    if last.key != k {
      WarmEntries(cfg, m, c, init, times, k);
    }
  }

  lemma {:induction false} WarmValid(cfg: Config, c: Lru<Flag>, fs: seq<Flag>, times: seq<int>)
    requires |fs| <= |times| && Valid(cfg, c)
    ensures Valid(cfg, WarmAll(cfg, c, fs, times))
  {
    hide Put, Valid;
    if fs != [] {
      var n := |fs| - 1;
      WarmValid(cfg, c, fs[..n], times);
      PutValid(cfg, WarmAll(cfg, c, fs[..n], times), fs[n].key, fs[n], times[n]);
    }
  }

  lemma ListingStocked(m: StoreSpec.Table, order: seq<string>)
    requires StoreSpec.Keyed(m) && StoreSpec.Enumerates(order, m)
    ensures forall k :: k in order ==> k in m
    ensures Stocked(m, StoreSpec.Listing(m, order)) && forall k :: k in m ==> m[k] in StoreSpec.Listing(m, order)
  {
    assert forall k :: k in order <==> k in Elements(order);
    var fs := StoreSpec.Listing(m, order);
    forall k | k in m ensures m[k] in fs {
      assert fs[IndexOf(order, k)] == m[k];
    }
  }

  lemma GetAllEntry(cfg: Config, b: Backend, order: seq<string>, times: seq<int>, k: string)
    requires Sound(cfg, b) && b.cache.Some? && Possible(b, RGetAll(order, times))
    ensures ExactEntry(Serve(cfg, b, RGetAll(order, times)), k)
  {
    hide WarmAll, Valid, NoDup, Stocked, StoreSpec.Listing, StoreSpec.Enumerates, Elements, Conserves;
    ListingStocked(b.table, order);
    GetAllStep(cfg, b, order, times);
    if k in b.table {
      WarmEntries(cfg, b.table, b.cache.value, StoreSpec.Listing(b.table, order), times, k);
    }
  }

  lemma OtherEntry(cfg: Config, b: Backend, r: Request, k: string)
    requires Sound(cfg, b) && b.cache.Some? && (r.RDelete? || r.RCleanup?)
    ensures SameEntry(b, Serve(cfg, b, r), k)
  {
  }

  lemma ServeValid(cfg: Config, b: Backend, r: Request)
    requires StoreSpec.Valid(b.table) && (r.RSet? ==> r.now != 0)
    ensures StoreSpec.Valid(Serve(cfg, b, r).table)
  {
    if r.RSet? {
      StoreSpec.SetValid(b.table, r.flag, r.now);
    }
  }

  /** In every run a cached flag equals the stored one, timestamps and all, exactly if the request that last
      put its key into the cache was a Get that missed, a GetAll, or a Set of a flag that brought the
      store's timestamps along. */
  lemma {:induction false} TimestampsExactIff(cfg: Config, table: StoreSpec.Table, rs: seq<Request>, b: Backend,
                                              k: string)
    requires StoreSpec.Valid(table) && AllPossible(cfg, Over(table, true), rs) && Clocked(rs)
    requires b == ServeAll(cfg, Over(table, true), rs)
    ensures StoreSpec.Valid(b.table) && b.cache.Some?
    ensures k in b.cache.value.items ==>
              && k in b.table
              && (b.cache.value.items[k].value == b.table[k] <==> LastPutIsExact(cfg, Over(table, true), rs, k))
  {
    AlwaysCoherent(cfg, table, true, rs);
    if rs != [] {
      var init, r := rs[..|rs| - 1], rs[|rs| - 1];
      var before := ServeAll(cfg, Over(table, true), init);
      assert Clocked(init);
      TimestampsExactIff(cfg, table, init, before, k);
      AlwaysCoherent(cfg, table, true, init);
      ServeValid(cfg, before, r);
      match r
      case RGet(key, t1, t2, t3) => GetEntry(cfg, before, key, t1, t2, t3, k);
      case RSet(f, t0, t) => SetEntry(cfg, before, f, t0, t, k);
      case RGetAll(order, times) => GetAllEntry(cfg, before, order, times, k);
      case _ => OtherEntry(cfg, before, r, k);
    }
  }
}
