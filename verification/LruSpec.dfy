/** The expiring LRU cache as a value: what each critical section of featureflag/cache/cache.go computes.

    An entry carries the identity of the item that holds it (`id`, drawn from `issued`), because the
    split-lock Get compares item pointers. `evicted` counts the calls of the eviction callback. */
module LruSpec {
  import opened Prelude

  /** maxSize <= 0 means unbounded, ttl <= 0 means that nothing expires. */
  datatype Config = Config(maxSize: int, ttl: int)

  datatype Entry<V> = Entry(value: V, expiresAt: int, id: nat)

  /** order: the keys, most recently touched first. */
  datatype Lru<V> = Lru(order: seq<string>, items: map<string, Entry<V>>, issued: nat, evicted: nat)

  /** What the read-locked half of Get sees. */
  datatype Probe<+V> = Absent | Expired | Found(value: V, id: nat)

  function Empty<V>(): Lru<V> { Lru([], map[], 0, 0) }

  ghost predicate Valid<V>(cfg: Config, s: Lru<V>) {
    && NoDup(s.order)
    && (forall k :: k in s.order <==> k in s.items)
    && (cfg.maxSize > 0 ==> |s.order| <= cfg.maxSize)
    && (forall k :: k in s.items ==> s.items[k].id < s.issued)
    && (cfg.ttl <= 0 ==> forall k :: k in s.items ==> s.items[k].expiresAt == 0)
  }

  predicate Stale<V>(cfg: Config, e: Entry<V>, now: int) {
    cfg.ttl > 0 && now > e.expiresAt
  }

  function Deadline(cfg: Config, now: int): int {
    if cfg.ttl > 0 then now + cfg.ttl else 0
  }

  /** removeItem for every key of ks, in any order. */
  function Remove<V>(s: Lru<V>, ks: set<string>): Lru<V> {
    Lru(Drop(s.order, ks), s.items - ks, s.issued, s.evicted + |ks * s.items.Keys|)
  }

  function Promote<V>(s: Lru<V>, k: string): Lru<V> {
    s.(order := ToFront(s.order, k))
  }

  /** evictIfNeeded: keep the maxSize most recently touched keys. */
  function Truncate<V>(cfg: Config, s: Lru<V>): Lru<V> {
    if cfg.maxSize > 0 && |s.order| > cfg.maxSize then
      var kept := s.order[..cfg.maxSize];
      Lru(kept, map k | k in s.items && k in kept :: s.items[k], s.issued, s.evicted + (|s.order| - cfg.maxSize))
    else s
  }

  /** A new value and deadline for a resident key; without a ttl the old deadline stays. */
  function Overwrite<V>(cfg: Config, s: Lru<V>, k: string, v: V, now: int): Lru<V>
    requires k in s.items
  {
    var e := s.items[k];
    s.(items := s.items[k := Entry(v, if cfg.ttl > 0 then now + cfg.ttl else e.expiresAt, e.id)])
  }

  /** A new key in front of the list, held by a newly issued item. */
  function Grow<V>(s: Lru<V>, k: string, v: V, expiresAt: int): Lru<V> {
    Lru([k] + s.order, s.items[k := Entry(v, expiresAt, s.issued)], s.issued + 1, s.evicted)
  }

  function Put<V>(cfg: Config, s: Lru<V>, k: string, v: V, now: int): Lru<V> {
    if k in s.items then Promote(Overwrite(cfg, s, k, v, now), k)
    else Truncate(cfg, Grow(s, k, v, Deadline(cfg, now)))
  }

  function Delete<V>(s: Lru<V>, k: string): Lru<V> {
    if k in s.items then Remove(s, {k}) else s
  }

  /** Clear drops everything without calling the eviction callback. */
  function Clear<V>(s: Lru<V>): Lru<V> {
    s.(order := [], items := map[])
  }

  function StaleKeys<V>(cfg: Config, s: Lru<V>, now: int): set<string> {
    set k | k in s.items && Stale(cfg, s.items[k], now)
  }

  function Sweep<V>(cfg: Config, s: Lru<V>, now: int): Lru<V> {
    Remove(s, StaleKeys(cfg, s, now))
  }

  // The three critical sections of Get.

  function ProbeFor<V>(cfg: Config, s: Lru<V>, k: string, now: int): Probe<V> {
    if k !in s.items then Absent
    else if Stale(cfg, s.items[k], now) then Expired
    else Found(s.items[k].value, s.items[k].id)
  }

  function Expire<V>(cfg: Config, s: Lru<V>, k: string, now: int): Lru<V> {
    if k in s.items && Stale(cfg, s.items[k], now) then Remove(s, {k}) else s
  }

  function Touch<V>(s: Lru<V>, k: string, id: nat): Lru<V> {
    if k in s.items && s.items[k].id == id then Promote(s, k) else s
  }

  /** Get without interference; the clock is read once under each lock. */
  function AfterGet<V>(cfg: Config, s: Lru<V>, k: string, t1: int, t2: int): Lru<V> {
    match ProbeFor(cfg, s, k, t1)
    case Absent => s
    case Expired => Expire(cfg, s, k, t2)
    case Found(_, id) => Touch(s, k, id)
  }

  function Lookup<V>(cfg: Config, s: Lru<V>, k: string, now: int): Option<V> {
    match ProbeFor(cfg, s, k, now)
    case Found(v, _) => Some(v)
    case _ => None
  }

  // ----- Every operation keeps the map and the list in step -----

  lemma RemoveValid<V>(cfg: Config, s: Lru<V>, ks: set<string>)
    requires Valid(cfg, s)
    ensures Valid(cfg, Remove(s, ks))
    ensures |Remove(s, ks).items| + Remove(s, ks).evicted == |s.items| + s.evicted
  {
    DropNoDup(s.order, ks);
    DropMembers(s.order, ks);
    assert (s.items - ks).Keys == s.items.Keys - ks;
    assert s.items.Keys == (s.items.Keys - ks) + ks * s.items.Keys;
  }

  lemma RemoveNothing<V>(s: Lru<V>)
    ensures Remove(s, {}) == s
  {
    DropNothing(s.order, {});
    assert s.items - {} == s.items;
  }

  lemma RemoveOneMore<V>(s: Lru<V>, ks: set<string>, k: string)
    requires k in s.items && k !in ks
    ensures Remove(s, ks + {k}) == Delete(Remove(s, ks), k)
  {
    var r := Remove(s, ks);
    DropDrop(s.order, ks, {k});
    assert s.items - (ks + {k}) == r.items - {k};
    assert (ks + {k}) * s.items.Keys == (ks * s.items.Keys) + {k};
    assert {k} * r.items.Keys == {k};
  }

  lemma SweepOff<V>(cfg: Config, s: Lru<V>, now: int)
    ensures cfg.ttl <= 0 ==> Sweep(cfg, s, now) == s
  {
    if cfg.ttl <= 0 {
      assert StaleKeys(cfg, s, now) == {};
      RemoveNothing(s);
    }
  }

  lemma DeleteValid<V>(cfg: Config, s: Lru<V>, k: string)
    requires Valid(cfg, s)
    ensures Valid(cfg, Delete(s, k)) && Delete(s, k).items == s.items - {k}
    ensures |Delete(s, k).items| + Delete(s, k).evicted == |s.items| + s.evicted
  {
    RemoveValid(cfg, s, {k});
    if k !in s.items {
      assert s.items - {k} == s.items;
    }
  }

  lemma PromoteValid<V>(cfg: Config, s: Lru<V>, k: string)
    requires Valid(cfg, s) && k in s.items
    ensures Valid(cfg, Promote(s, k))
  {
    DropNoDup(s.order, {k});
    DropMembers(s.order, {k});
    NoDupCons(k, Drop(s.order, {k}));
    Sizes(cfg, s);
    Sizes(Config(0, cfg.ttl), Promote(s, k));
  }

  lemma Sizes<V>(cfg: Config, s: Lru<V>)
    requires Valid(cfg, s)
    ensures |s.order| == |s.items|
  {
    ElementsSize(s.order);
    assert Elements(s.order) == s.items.Keys;
  }

  lemma ExpireValid<V>(cfg: Config, s: Lru<V>, k: string, now: int)
    requires Valid(cfg, s)
    ensures var r := Expire(cfg, s, k, now);
      Valid(cfg, r) && forall j :: j in r.items ==> j in s.items && r.items[j] == s.items[j]
  {
    DeleteValid(cfg, s, k);
  }

  lemma TouchValid<V>(cfg: Config, s: Lru<V>, k: string, id: nat)
    requires Valid(cfg, s)
    ensures Valid(cfg, Touch(s, k, id)) && Touch(s, k, id).items == s.items
  {
    if k in s.items {
      PromoteValid(cfg, s, k);
    }
  }

  lemma PutResident<V>(cfg: Config, s: Lru<V>, k: string, v: V, now: int)
    requires Valid(cfg, s) && k in s.items
    ensures var r := Put(cfg, s, k, v, now);
      && Valid(cfg, r) && r.items.Keys == s.items.Keys
      && r.items[k].expiresAt == Deadline(cfg, now)
  {
    var t := Overwrite(cfg, s, k, v, now);
    assert t.items.Keys == s.items.Keys;
    PromoteValid(cfg, t, k);
  }

  /** s one entry over its bound, as it is after the insertion of a new key. */
  lemma TruncateValid<V>(cfg: Config, s: Lru<V>)
    requires cfg.maxSize > 0 && |s.order| == cfg.maxSize + 1
    requires Valid(Config(0, cfg.ttl), s)
    ensures var r := Truncate(cfg, s);
      && Valid(cfg, r) && r.order == s.order[..|s.order| - 1]
      && r.items == s.items - {s.order[|s.order| - 1]}
  {
    var last := s.order[|s.order| - 1];
    var kept := s.order[..cfg.maxSize];
    assert s.order == kept + [last];
    assert forall k :: k in s.order <==> k in kept || k == last;
  }

  lemma GrowValid<V>(cfg: Config, s: Lru<V>, k: string, v: V, now: int)
    requires Valid(cfg, s) && k !in s.items
    ensures var t := Grow(s, k, v, Deadline(cfg, now));
      Valid(Config(0, cfg.ttl), t) && |t.items| == |s.items| + 1 && |t.order| == |s.order| + 1
  {
    var t := Grow(s, k, v, Deadline(cfg, now));
    NoDupCons(k, s.order);
    assert t.items.Keys == s.items.Keys + {k};
  }

  lemma PutNew<V>(cfg: Config, s: Lru<V>, k: string, v: V, now: int)
    requires Valid(cfg, s) && k !in s.items
    ensures var r := Put(cfg, s, k, v, now);
      && Valid(cfg, r) && k in r.items && r.order[0] == k
      && r.items[k] == Entry(v, Deadline(cfg, now), s.issued)
      && r.items.Keys <= s.items.Keys + {k}
      && (forall j :: j in s.items && j !in r.items ==> j == s.order[|s.order| - 1])
      && |r.items| + r.evicted == |s.items| + s.evicted + 1
  {
    var t := Grow(s, k, v, Deadline(cfg, now));
    GrowValid(cfg, s, k, v, now);
    if cfg.maxSize > 0 && |t.order| > cfg.maxSize {
      TruncateValid(cfg, t);
      Sizes(Config(0, cfg.ttl), t);
      Sizes(cfg, Truncate(cfg, t));
      assert t.order[|t.order| - 1] == s.order[|s.order| - 1];
      assert s.order[|s.order| - 1] in s.order;
    }
  }

  /** A Set leaves a valid cache that holds the key just set in front; every other entry is an old
      one, and it gives up at most one key, the one at the back of the list. */
  lemma PutValid<V>(cfg: Config, s: Lru<V>, k: string, v: V, now: int)
    requires Valid(cfg, s)
    ensures var r := Put(cfg, s, k, v, now);
      && Valid(cfg, r)
      && k in r.items && r.order[0] == k
      && r.items[k].value == v && r.items[k].expiresAt == Deadline(cfg, now)
      && (forall j :: j in r.items && j != k ==> j in s.items && r.items[j] == s.items[j])
      && (forall j :: j in s.items && j !in r.items ==> k !in s.items && j == s.order[|s.order| - 1])
      && |r.items| + r.evicted + s.issued == |s.items| + s.evicted + r.issued
  {
    if k in s.items {
      PutResident(cfg, s, k, v, now);
    } else {
      PutNew(cfg, s, k, v, now);
    }
  }

  lemma RemoveLast<V>(cfg: Config, s: Lru<V>)
    requires Valid(cfg, s) && s.order != []
    ensures var r := Remove(s, {s.order[|s.order| - 1]});
      && r.order == s.order[..|s.order| - 1] && r.evicted == s.evicted + 1 && r.issued == s.issued
      && r.items == s.items - {s.order[|s.order| - 1]} && forall k :: k in r.order <==> k in r.items
  {
    var n := |s.order| - 1;
    DropAt(s.order, n);
    assert s.order[n] in s.order;
    assert {s.order[n]} * s.items.Keys == {s.order[n]};
  }

  lemma TruncateDone<V>(cfg: Config, s: Lru<V>)
    ensures cfg.maxSize <= 0 || |s.order| <= cfg.maxSize ==> Truncate(cfg, s) == s
  {
  }

  /** Removing the key at the back of an overfull list leads towards the same truncation. */
  lemma TruncateStep<V>(cfg: Config, s: Lru<V>)
    requires Valid(Config(0, cfg.ttl), s) && cfg.maxSize > 0 && |s.order| > cfg.maxSize
    ensures var r := Remove(s, {s.order[|s.order| - 1]});
      Truncate(cfg, r) == Truncate(cfg, s) && |r.order| == |s.order| - 1 && r.evicted == s.evicted + 1
  {
    hide Remove, Drop, Valid;
    var n := |s.order| - 1;
    var last, kept := s.order[n], s.order[..cfg.maxSize];
    RemoveLast(Config(0, cfg.ttl), s);
    var r := Remove(s, {last});
    hide Remove, Drop;
    assert r.order[..cfg.maxSize] == kept && last !in kept by {
      NoDupPairs(s.order);
    }
    assert (map k | k in r.items && k in kept :: r.items[k]) == (map k | k in s.items && k in kept :: s.items[k]);
    if |r.order| == cfg.maxSize {
      assert kept == r.order;
      assert r.items == (map k | k in r.items && k in kept :: r.items[k]);
    }
  }

  // ----- What a Get does to the list -----

  /** A hit moves its key to the front and changes nothing else: no entry, no deadline, no other order. A
      miss changes nothing, unless the key is there and expired at both readings of the clock: then exactly
      that entry goes, and is counted. */
  lemma AfterGetMeaning<V>(cfg: Config, s: Lru<V>, k: string, t1: int, t2: int)
    requires Valid(cfg, s)
    ensures var r, hit := AfterGet(cfg, s, k, t1, t2), Lookup(cfg, s, k, t1).Some?;
      && Valid(cfg, r) && r.issued == s.issued
      && (hit <==> k in s.items && (cfg.ttl > 0 ==> t1 <= s.items[k].expiresAt))
      && (hit ==> |r.order| > 0 && r.order[0] == k && r.items == s.items && r.evicted == s.evicted)
      && (!hit && k in s.items && t2 > s.items[k].expiresAt ==> r.items == s.items - {k} && r.evicted == s.evicted + 1)
      && (!hit && (k in s.items ==> t2 <= s.items[k].expiresAt) ==> r == s)
      && Drop(r.order, {k}) == Drop(s.order, {k})
  {
    hide Promote, Remove, Drop, Valid;
    if k in s.items {
      PromoteMeaning(cfg, s, k);
      RemoveOne(cfg, s, k);
      ValidDeadline(cfg, s, k);
    }
  }

  lemma ValidDeadline<V>(cfg: Config, s: Lru<V>, k: string)
    requires Valid(cfg, s) && k in s.items
    ensures cfg.ttl <= 0 ==> s.items[k].expiresAt == 0
  {
  }

  lemma PromoteMeaning<V>(cfg: Config, s: Lru<V>, k: string)
    requires Valid(cfg, s) && k in s.items
    ensures var r := Promote(s, k);
      && Valid(cfg, r) && |r.order| > 0 && r.order[0] == k && r.items == s.items
      && r.evicted == s.evicted && r.issued == s.issued && Drop(r.order, {k}) == Drop(s.order, {k})
  {
    PromoteValid(cfg, s, k);
    var rest := Drop(s.order, {k});
    DropMembers(s.order, {k});
    DropNothing(rest, {k});
    assert Promote(s, k).order[1..] == rest;
  }

  lemma RemoveOne<V>(cfg: Config, s: Lru<V>, k: string)
    requires Valid(cfg, s) && k in s.items
    ensures var r := Remove(s, {k});
      && Valid(cfg, r) && r.items == s.items - {k} && r.evicted == s.evicted + 1 && r.issued == s.issued
      && Drop(r.order, {k}) == Drop(s.order, {k})
  {
    RemoveValid(cfg, s, {k});
    assert {k} * s.items.Keys == {k};
    DropMembers(s.order, {k});
    DropNothing(Drop(s.order, {k}), {k});
  }

  /** A Set puts its key in front of the keys that were in front before, as many as fit. */
  lemma PutFront<V>(cfg: Config, s: Lru<V>, k: string, v: V, now: int, m: nat)
    requires Valid(cfg, s) && m <= |s.order| && k !in s.order[..m] && (cfg.maxSize > 0 ==> m < cfg.maxSize)
    ensures var r := Put(cfg, s, k, v, now); |r.order| > m && r.order[..m + 1] == [k] + s.order[..m]
  {
    var front, rest := s.order[..m], s.order[m..];
    assert s.order == front + rest;
    DropConcat(front, rest, {k});
    DropNothing(front, {k});
    assert Drop(s.order, {k})[..m] == front;
  }
}
