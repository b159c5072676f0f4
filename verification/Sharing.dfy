/** What callers can do to a cached store through the flags they share with it: exactly which writes show
    in which answers. The in-memory store shares nothing (Isolation); the cache keeps and hands out its
    pointers. */
module Sharing {
  import opened Prelude
  import opened Flags
  import opened LruSpec
  import opened Backend
  import opened MemoryStore
  import opened CachedStore
  import opened Client
  import StoreSpec

  /** What a Get of the key answers: the flag behind the pointer that it hits, or else what the store says. */
  lemma AnswerIs(cfg: Config, b: Layered<FeatureFlag>, seen: Snapshot, key: string, now: int)
    requires Known(b, seen)
    ensures match Cached(cfg, b, key, now)
      case Some(p) => p in seen && GetResult(cfg, Shown(b, seen), key, now) == Ok(seen[p])
      case None => GetResult(cfg, Shown(b, seen), key, now) == StoreSpec.Get(b.table, key)
  {
    if b.cache.Some? {
      DerefLookup(cfg, b.cache.value, seen, key, now);
    }
  }

  /** The answers for a key differ exactly if a Get of it hits a pointer whose flag differs. */
  ghost predicate DifferBy(cfg: Config, b: Layered<FeatureFlag>, v: Backend, w: Backend, changed: set<FeatureFlag>) {
    && (forall key, now :: GetResult(cfg, v, key, now) != GetResult(cfg, w, key, now) <==>
          Cached(cfg, b, key, now).Some? && Cached(cfg, b, key, now).value in changed)
    && (v != w <==> b.cache.Some? && Pointers(b.cache.value) * changed != {})
  }

  lemma ShownDiffer(cfg: Config, b: Layered<FeatureFlag>, seen: Snapshot, seen': Snapshot, changed: set<FeatureFlag>)
    requires Known(b, seen) && Known(b, seen')
    requires forall p :: p in seen && p in seen' ==> (p in changed <==> seen[p] != seen'[p])
    ensures DifferBy(cfg, b, Shown(b, seen), Shown(b, seen'), changed)
  {
    forall key, now
      ensures GetResult(cfg, Shown(b, seen), key, now) != GetResult(cfg, Shown(b, seen'), key, now) <==>
                Cached(cfg, b, key, now).Some? && Cached(cfg, b, key, now).value in changed
    {
      AnswerIs(cfg, b, seen, key, now);
      AnswerIs(cfg, b, seen', key, now);
    }
    if b.cache.Some? {
      DerefDiffer(b.cache.value, seen, seen', changed);
    }
  }

  lemma DerefDiffer(c: Lru<FeatureFlag>, seen: Snapshot, seen': Snapshot, changed: set<FeatureFlag>)
    requires Pointers(c) <= seen.Keys && Pointers(c) <= seen'.Keys
    requires forall p :: p in seen && p in seen' ==> (p in changed <==> seen[p] != seen'[p])
    ensures Deref(c, seen) != Deref(c, seen') <==> Pointers(c) * changed != {}
  {
    if Pointers(c) * changed == {} {
      assert forall p :: p in Pointers(c) ==> p !in Pointers(c) * changed;
      assert Deref(c, seen).items == Deref(c, seen').items;
    } else {
      var p :| p in Pointers(c) * changed;
      var k :| k in c.items && c.items[k].value == p;
      assert Deref(c, seen).items[k] != Deref(c, seen').items[k];
    }
  }

  /** The cached flags that have this metadata map. */
  ghost function Sharers(ps: set<FeatureFlag>, m: MetadataMap): set<FeatureFlag>
    reads ps
  {
    set p | p in ps && p.s.metadata == m
  }

  /** The write itself leaves the cached store in order, and changes the flag that it names. */
  method Poke(cs: CachedStore, p: FeatureFlag, s: FlagStruct)
    requires cs.Valid() && cs.Outside(p) && cs.Foreign(s)
    modifies p
    ensures cs.Valid() && cs.Raw() == old(cs.Raw()) && cs.Footprint() == old(cs.Footprint())
    ensures p.s == s && p.Value() == old(s.Value())
    ensures forall q {:trigger q.Value()} :: q in cs.Resident() && q != p ==> q.Value() == old(q.Value())
  {
    hide CachedStore.InOrder;
    p.s := s;
  }

  method PokeMap(cs: CachedStore, m: MetadataMap, entries: map<string, string>)
    requires cs.Valid() && cs.Outside(m)
    modifies m
    ensures cs.Valid() && cs.Raw() == old(cs.Raw()) && cs.Footprint() == old(cs.Footprint())
    ensures m.entries == entries && cs.Resident() == old(cs.Resident())
    ensures forall q {:trigger q.Value()} :: q in cs.Resident() ==> q.s == old(q.s)
    ensures forall q {:trigger q.Value()} :: q in cs.Resident() && q.s.metadata != m ==> q.Value() == old(q.Value())
    ensures forall q {:trigger q.Value()} :: q in cs.Resident() && q.s.metadata == m ==>
              q.Value() == old(q.Value()).(metadata := Some(entries))
  {
    hide CachedStore.InOrder;
    m.entries := entries;
  }

  /** A caller overwrites a flag that is no part of the cached store. The answer for a key changes exactly
      if a Get of it hits that very pointer and the flag written is a different one. */
  method WriteFlag(cs: CachedStore, p: FeatureFlag, s: FlagStruct)
    requires cs.Valid() && cs.Outside(p) && cs.Foreign(s)
    modifies p
    ensures cs.Valid() && p.s == s && cs.Raw() == old(cs.Raw()) && cs.Footprint() == old(cs.Footprint())
    ensures DifferBy(cs.Cfg(), cs.Raw(), old(cs.View()), cs.View(), if p.Value() == old(p.Value()) then {} else {p})
  {
    hide CachedStore.Valid, Shown, DifferBy;
    ghost var seen := Look(cs.Resident());
    ghost var changed := if s.Value() == p.Value() then {} else {p};
    Poke(cs, p, s);
    ShownDiffer(cs.Cfg(), cs.Raw(), seen, Look(cs.Resident()), changed);
  }

  /** A caller overwrites a metadata map: the flags that have it change, if the entries are different ones. */
  method WriteMap(cs: CachedStore, m: MetadataMap, entries: map<string, string>)
    requires cs.Valid() && cs.Outside(m)
    modifies m
    ensures cs.Valid() && m.entries == entries && cs.Raw() == old(cs.Raw()) && cs.Footprint() == old(cs.Footprint())
    ensures DifferBy(cs.Cfg(), cs.Raw(), old(cs.View()), cs.View(),
                     if entries == old(m.entries) then {} else Sharers(cs.Resident(), m))
  {
    hide CachedStore.Valid, Shown, DifferBy;
    ghost var seen := Look(cs.Resident());
    ghost var before := m.entries;
    PokeMap(cs, m, entries);
    ghost var changed := if entries == before then {} else Sharers(cs.Resident(), m);
    assert forall q {:trigger q.Value()} :: q in seen ==> seen[q] == old(q.Value());
    ShownDiffer(cs.Cfg(), cs.Raw(), seen, Look(cs.Resident()), changed);
  }

  /** The flag in an entry is the answer until the deadline. */
  lemma AnswersWhatItHolds(cs: CachedStore, key: string, s: FlagStruct, t: int, t1: int)
    requires cs.Holds(key, s, t) && (cs.Cfg().ttl > 0 ==> t1 - t <= cs.Cfg().ttl)
    ensures GetResult(cs.Cfg(), cs.View(), key, t1) == Ok(cs.cache.model.items[key].value.Value())
    ensures cs.cache.model.items[key].value.s == s
  {
    AnswerIs(cs.Cfg(), cs.Raw(), Look(cs.Resident()), key, t1);
  }

  /** Snapshot from a client: its state changes exactly if the flag is behind an entry, expired or not, and a
      different one is written. Writing to a flag that was evicted, expired or deleted leaves every result
      about the calls on record as it was. */
  method WriteBorrowed(c: FlagClient, p: FeatureFlag, s: FlagStruct)
    requires c.Valid() && c.store.Outside(p) && c.store.Foreign(s)
    modifies p
    ensures c.Valid() && p.s == s
    ensures c.State() != old(c.State()) <==> p in c.store.Resident() && p.Value() != old(p.Value())
    ensures c.State() == old(c.State()) && old(c.OnRecord()) ==> c.OnRecord()
  {
    hide CachedStore.Valid, CachedStore.View;
    WriteFlag(c.store, p, s);
  }

  /** SetFlag puts the caller's own metadata map into the cache and its entries into the store. */
  method SetWithMap(c: FlagClient, flag: FlagStruct, t0: int, now: int, t: int)
    requires c.Valid() && !c.closed && c.store.cache != null && ValidKey(flag.key) && c.store.Foreign(flag) && now > 0
    modifies c, c.store.Footprint()
    ensures c.Valid() && !c.closed && fresh(c.store.Footprint() - old(c.store.Footprint()))
    ensures c.store.Holds(flag.key, flag.Stamped(t0), t)
    ensures flag.key in c.store.store.table && c.store.store.table[flag.key].metadata == old(flag.Value()).metadata
  {
    hide CachedStore.Valid, CachedStore.View, FlagClient.Valid;
    ValidationMeaning(flag.key);
    var err := c.SetFlag(flag, t0, now, t);
    c.store.ViewTable();
  }

  /** Writing to the map then changes what the cache holds and not what the store holds. */
  method ThenWriteMap(c: FlagClient, m: MetadataMap, entries: map<string, string>)
    requires c.Valid() && c.store.Outside(m)
    modifies m
    ensures c.Valid() && m.entries == entries && c.closed == old(c.closed)
    ensures c.store.Raw() == old(c.store.Raw())
    ensures forall p {:trigger p.s} :: p in c.store.Resident() ==> p.s == old(p.s)
  {
    hide CachedStore.Valid;
    WriteMap(c.store, m, entries);
  }

  /** GetFlag hits an entry whose deadline has not passed, and returns its pointer's flag as it is now. */
  method GetHeld(c: FlagClient, key: string, s: FlagStruct, t: int, t1: int, t2: int, t3: int)
    returns (r: Result<FeatureFlag, Error>)
    requires c.Valid() && !c.closed && key != "" && c.store.Holds(key, s, t)
    requires c.store.Cfg().ttl > 0 ==> t1 - t <= c.store.Cfg().ttl
    modifies c, c.store.Footprint()
    ensures r.Ok? && r.value.Value() == old(s.Value()) && c.store.store.table == old(c.store.store.table)
  {
    hide CachedStore.Valid, CachedStore.View;
    AnswersWhatItHolds(c.store, key, s, t, t1);
    c.store.ViewTable();
    ghost var answer;
    r, answer := c.GetFlag(key, t1, t2, t3);
    c.store.ViewTable();
  }

  /** A caller's own metadata map, written to after SetFlag: until the entry expires GetFlag returns the
      entries written later, while the store has those that were set. */
  method WriteOwnMap(c: FlagClient, flag: FlagStruct, m: MetadataMap, entries: map<string, string>,
                     t0: int, now: int, t: int, t1: int, t2: int, t3: int)
    returns (r: Result<FeatureFlag, Error>)
    requires c.Valid() && !c.closed && c.store.cache != null && ValidKey(flag.key)
    requires flag.metadata == m && c.store.Outside(m) && now > 0
    requires c.store.Cfg().ttl > 0 ==> t1 - t <= c.store.Cfg().ttl
    modifies c, c.store.Footprint(), m
    ensures r.Ok? && r.value.Value() == Stamp(old(flag.Value()), t0).(metadata := Some(entries))
    ensures flag.key in c.store.store.table && c.store.store.table[flag.key].metadata == Some(old(m.entries))
  {
    hide FlagClient.Valid;
    SetWithMap(c, flag, t0, now, t);
    ThenWriteMap(c, m, entries);
    r := GetHeld(c, flag.key, flag.Stamped(t0), t, t1, t2, t3);
  }
}
