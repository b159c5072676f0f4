/** LRU inclusion: fed the same timed operations, a smaller cache always holds a part of what a larger
    (or unbounded) one holds, so making a cache larger never loses a hit. */
module Inclusion {
  import opened Prelude
  import opened LruSpec

  /** One operation with the clock readings it makes. */
  datatype Timed<V> =
    | TSet(key: string, value: V, now: int)
    | TGet(key: string, t1: int, t2: int)
    | TDelete(key: string)
    | TClear
    | TCleanup(now: int)

  function Do<V>(cfg: Config, s: Lru<V>, op: Timed<V>): Lru<V> {
    match op
    case TSet(k, v, now) => Put(cfg, s, k, v, now)
    case TGet(k, t1, t2) => AfterGet(cfg, s, k, t1, t2)
    case TDelete(k) => Delete(s, k)
    case TClear => Clear(s)
    case TCleanup(now) => Sweep(cfg, s, now)
  }

  function DoAll<V>(cfg: Config, ops: seq<Timed<V>>): Lru<V> {
    if ops == [] then Empty() else Do(cfg, DoAll(cfg, ops[..|ops| - 1]), ops[|ops| - 1])
  }

  function Extra<V>(small: Lru<V>, large: Lru<V>): set<string> {
    large.items.Keys - small.items.Keys
  }

  /** small is large without some keys: same relative recency, same values, same deadlines. */
  ghost predicate PartOf<V>(small: Lru<V>, large: Lru<V>) {
    && small.items.Keys <= large.items.Keys
    && small.order == Drop(large.order, Extra(small, large))
    && (forall k :: k in small.items ==>
          small.items[k].value == large.items[k].value && small.items[k].expiresAt == large.items[k].expiresAt)
  }

  /** What is missing from the small cache is explained by the difference in size. */
  ghost predicate Included<V>(cs: Config, cl: Config, small: Lru<V>, large: Lru<V>) {
    && PartOf(small, large)
    && (cl.maxSize > 0 ==> |large.order| - |small.order| <= cl.maxSize - cs.maxSize)
  }

  ghost predicate Smaller(cs: Config, cl: Config) {
    cs.maxSize > 0 && cs.ttl == cl.ttl && (cl.maxSize > 0 ==> cs.maxSize <= cl.maxSize)
  }

  // ----- Steps on the two lists -----

  lemma SameDrops(s: seq<string>, a: set<string>, b: set<string>)
    requires forall k :: k in s ==> (k in a <==> k in b)
    ensures Drop(s, a) == Drop(s, b)
  {
    if s != [] {
      assert s[0] in s;
      assert forall k :: k in s[1..] ==> k in s;
      SameDrops(s[1..], a, b);
    }
  }

  lemma DropBoth(order: seq<string>, large: set<string>, small: set<string>, a: set<string>, b: set<string>)
    requires (forall k :: k in order ==> k in large) && small <= large && a * small <= b
    ensures Drop(Drop(order, large - small), b) == Drop(Drop(order, a), (large - a) - (small - b))
  {
    DropDrop(order, large - small, b);
    DropDrop(order, a, (large - a) - (small - b));
    SameDrops(order, (large - small) + b, a + ((large - a) - (small - b)));
  }

  /** Removing a from the large and b from the small cache, where the small one keeps nothing that the
      large one loses. */
  lemma RemoveBoth<V>(cfg: Config, small: Lru<V>, large: Lru<V>, a: set<string>, b: set<string>)
    requires Valid(cfg, large) && PartOf(small, large)
    requires a * small.items.Keys <= b
    ensures PartOf(Remove(small, b), Remove(large, a))
  {
    DropBoth(large.order, large.items.Keys, small.items.Keys, a, b);
  }

  /** A key that both hold is promoted in both. */
  lemma PromoteBoth<V>(small: Lru<V>, large: Lru<V>, k: string)
    requires PartOf(small, large) && k in small.items
    ensures PartOf(Promote(small, k), Promote(large, k))
  {
    var x, rest := Extra(small, large), Drop(large.order, {k});
    DropDrop(large.order, x, {k});
    DropDrop(large.order, {k}, x);
    assert x + {k} == {k} + x;
    assert Drop([k] + rest, x) == [k] + Drop(rest, x) by { assert ([k] + rest)[1..] == rest; }
  }

  /** A key that only the large one holds is promoted there. */
  lemma PromoteLarge<V>(small: Lru<V>, large: Lru<V>, k: string)
    requires PartOf(small, large) && k in large.items && k !in small.items
    ensures PartOf(small, Promote(large, k))
  {
    var x, rest := Extra(small, large), Drop(large.order, {k});
    DropDrop(large.order, {k}, x);
    assert {k} + x == x;
    assert Drop([k] + rest, x) == Drop(rest, x) by { assert ([k] + rest)[1..] == rest; }
  }

  /** What a truncation removes: nothing, or the key at the back. */
  function Overflow<V>(cfg: Config, s: Lru<V>): set<string> {
    if cfg.maxSize > 0 && |s.order| > cfg.maxSize then {s.order[|s.order| - 1]} else {}
  }

  lemma TruncateIsRemove<V>(cfg: Config, s: Lru<V>)
    requires Valid(Config(0, cfg.ttl), s) && (cfg.maxSize > 0 ==> |s.order| <= cfg.maxSize + 1)
    ensures Truncate(cfg, s) == Remove(s, Overflow(cfg, s))
  {
    if Overflow(cfg, s) == {} {
      RemoveNothing(s);
    } else {
      TruncateStep(cfg, s);
    }
  }

  /** If the small cache also holds the large one's last key, it is last there too. */
  lemma SameLast<V>(small: Lru<V>, large: Lru<V>)
    requires PartOf(small, large) && large.order != [] && large.order[|large.order| - 1] in small.items
    ensures small.order != [] && small.order[|small.order| - 1] == large.order[|large.order| - 1]
  {
    var n := |large.order| - 1;
    var y := large.order[n];
    assert large.order == large.order[..n] + [y];
    DropConcat(large.order[..n], [y], Extra(small, large));
  }

  lemma TruncateBoth<V>(cs: Config, cl: Config, small: Lru<V>, large: Lru<V>)
    requires Smaller(cs, cl) && PartOf(small, large)
    requires Valid(Config(0, cs.ttl), small) && Valid(Config(0, cl.ttl), large)
    requires |small.order| <= cs.maxSize + 1
    requires cl.maxSize > 0 ==> |large.order| <= cl.maxSize + 1
    requires cl.maxSize > 0 && |large.order| > cl.maxSize ==> |small.order| > cs.maxSize
    ensures PartOf(Truncate(cs, small), Truncate(cl, large))
  {
    TruncateIsRemove(cs, small);
    TruncateIsRemove(cl, large);
    if Overflow(cl, large) * small.items.Keys != {} {
      SameLast(small, large);
    }
    RemoveBoth(Config(0, cl.ttl), small, large, Overflow(cl, large), Overflow(cs, small));
  }

  lemma OverwriteBoth<V>(cs: Config, cl: Config, small: Lru<V>, large: Lru<V>, k: string, v: V, now: int)
    requires Smaller(cs, cl) && PartOf(small, large) && k in small.items
    ensures PartOf(Overwrite(cs, small, k, v, now), Overwrite(cl, large, k, v, now))
  {
    var s, l := Overwrite(cs, small, k, v, now), Overwrite(cl, large, k, v, now);
    assert s.items.Keys == small.items.Keys && l.items.Keys == large.items.Keys;
  }

  /** The large cache already holds k, the small one takes it in. */
  lemma GrowSmall<V>(cs: Config, cl: Config, small: Lru<V>, large: Lru<V>, k: string, v: V, now: int)
    requires Smaller(cs, cl) && PartOf(small, large) && k in large.items && k !in small.items
    requires cs.ttl <= 0 ==> large.items[k].expiresAt == 0
    ensures PartOf(Grow(small, k, v, Deadline(cs, now)), Promote(Overwrite(cl, large, k, v, now), k))
  {
    var s, l := Grow(small, k, v, Deadline(cs, now)), Promote(Overwrite(cl, large, k, v, now), k);
    var x, rest := Extra(small, large), Drop(large.order, {k});
    assert l.items.Keys == large.items.Keys && s.items.Keys == small.items.Keys + {k};
    assert Extra(s, l) == x - {k};
    DropDrop(large.order, {k}, x - {k});
    assert {k} + (x - {k}) == x;
    assert Drop([k] + rest, x - {k}) == [k] + Drop(rest, x - {k}) by { assert ([k] + rest)[1..] == rest; }
  }

  lemma GrowBoth<V>(small: Lru<V>, large: Lru<V>, k: string, v: V, expiresAt: int)
    requires PartOf(small, large) && k !in large.items
    ensures PartOf(Grow(small, k, v, expiresAt), Grow(large, k, v, expiresAt))
  {
    var s, l := Grow(small, k, v, expiresAt), Grow(large, k, v, expiresAt);
    assert l.items.Keys == large.items.Keys + {k} && s.items.Keys == small.items.Keys + {k};
    assert Extra(s, l) == Extra(small, large);
    assert l.order[1..] == large.order;
  }

  // ----- Every operation keeps the inclusion -----

  /** A Set of a key that only the large cache holds. */
  lemma AdmitSmall<V>(cs: Config, cl: Config, small: Lru<V>, large: Lru<V>, k: string, v: V, now: int)
    requires Smaller(cs, cl) && Valid(cs, small) && Valid(cl, large) && PartOf(small, large)
    requires k in large.items && k !in small.items
    ensures PartOf(Put(cs, small, k, v, now), Put(cl, large, k, v, now))
  {
    GrowValid(cs, small, k, v, now);
    PutResident(cl, large, k, v, now);
    GrowSmall(cs, cl, small, large, k, v, now);
    TruncateBoth(cs, Config(0, cl.ttl), Grow(small, k, v, Deadline(cs, now)), Put(cl, large, k, v, now));
  }

  /** A Set of a key that neither holds. */
  lemma AdmitBoth<V>(cs: Config, cl: Config, small: Lru<V>, large: Lru<V>, k: string, v: V, now: int)
    requires Smaller(cs, cl) && Valid(cs, small) && Valid(cl, large) && Included(cs, cl, small, large)
    requires k !in large.items
    ensures PartOf(Put(cs, small, k, v, now), Put(cl, large, k, v, now))
  {
    hide Drop;
    GrowValid(cs, small, k, v, now);
    GrowValid(cl, large, k, v, now);
    GrowBoth(small, large, k, v, Deadline(cs, now));
    TruncateBoth(cs, cl, Grow(small, k, v, Deadline(cs, now)), Grow(large, k, v, Deadline(cl, now)));
  }

  lemma PutKeeps<V>(cs: Config, cl: Config, small: Lru<V>, large: Lru<V>, k: string, v: V, now: int)
    requires Smaller(cs, cl) && Valid(cs, small) && Valid(cl, large) && Included(cs, cl, small, large)
    ensures Included(cs, cl, Put(cs, small, k, v, now), Put(cl, large, k, v, now))
  {
    PutSizes(cs, small, k, v, now);
    PutSizes(cl, large, k, v, now);
    if k in small.items {
      OverwriteBoth(cs, cl, small, large, k, v, now);
      PromoteBoth(Overwrite(cs, small, k, v, now), Overwrite(cl, large, k, v, now), k);
    } else if k in large.items {
      AdmitSmall(cs, cl, small, large, k, v, now);
    } else {
      AdmitBoth(cs, cl, small, large, k, v, now);
    }
  }

  lemma PutSizes<V>(cfg: Config, s: Lru<V>, k: string, v: V, now: int)
    requires Valid(cfg, s)
    ensures |Put(cfg, s, k, v, now).order| ==
      if k in s.items || (cfg.maxSize > 0 && |s.order| == cfg.maxSize) then |s.order| else |s.order| + 1
  {
    PutValid(cfg, s, k, v, now);
    if k in s.items {
      PutResident(cfg, s, k, v, now);
      Sizes(cfg, s);
      Sizes(cfg, Put(cfg, s, k, v, now));
      assert |Put(cfg, s, k, v, now).items.Keys| == |s.items.Keys|;
    }
  }

  /** Removing b from the small cache and at least as much from the large one. */
  lemma RemoveKeeps<V>(cs: Config, cl: Config, small: Lru<V>, large: Lru<V>, a: set<string>, b: set<string>)
    requires Valid(cs, small) && Valid(cl, large) && Included(cs, cl, small, large)
    requires b <= a <= large.items.Keys && a * small.items.Keys == b
    ensures Included(cs, cl, Remove(small, b), Remove(large, a))
  {
    RemoveBoth(cl, small, large, a, b);
    RemovedSize(cs, small, b);
    RemovedSize(cl, large, a);
    SubsetSize(b, a);
  }

  lemma SubsetSize(b: set<string>, a: set<string>)
    requires b <= a
    ensures |b| <= |a|
  {
    assert a == b + (a - b);
  }

  lemma RemovedSize<V>(cfg: Config, s: Lru<V>, ks: set<string>)
    requires Valid(cfg, s) && ks <= s.items.Keys
    ensures |Remove(s, ks).order| == |s.order| - |ks|
  {
    RemoveValid(cfg, s, ks);
    Sizes(cfg, s);
    Sizes(cfg, Remove(s, ks));
    assert ks * s.items.Keys == ks;
  }

  lemma DeleteKeeps<V>(cs: Config, cl: Config, small: Lru<V>, large: Lru<V>, k: string)
    requires Valid(cs, small) && Valid(cl, large) && Included(cs, cl, small, large) && k in large.items
    ensures Included(cs, cl, Delete(small, k), Delete(large, k))
  {
    if k in small.items {
      RemoveKeeps(cs, cl, small, large, {k}, {k});
    } else {
      RemoveKeeps(cs, cl, small, large, {k}, {});
      RemoveNothing(small);
    }
  }

  lemma HitKeeps<V>(cs: Config, cl: Config, small: Lru<V>, large: Lru<V>, k: string)
    requires Valid(cs, small) && Valid(cl, large) && Included(cs, cl, small, large) && k in large.items
    ensures Included(cs, cl, if k in small.items then Promote(small, k) else small, Promote(large, k))
  {
    PromotedSize(cl, large, k);
    if k in small.items {
      PromotedSize(cs, small, k);
      PromoteBoth(small, large, k);
    } else {
      PromoteLarge(small, large, k);
    }
  }

  lemma GetKeeps<V>(cs: Config, cl: Config, small: Lru<V>, large: Lru<V>, k: string, t1: int, t2: int)
    requires Smaller(cs, cl) && Valid(cs, small) && Valid(cl, large) && Included(cs, cl, small, large)
    ensures Included(cs, cl, AfterGet(cs, small, k, t1, t2), AfterGet(cl, large, k, t1, t2))
  {
    assert k in small.items ==> k in large.items && small.items[k].expiresAt == large.items[k].expiresAt;
    if k in large.items {
      DeleteKeeps(cs, cl, small, large, k);
      HitKeeps(cs, cl, small, large, k);
    }
    hide Included;
  }

  lemma PromotedSize<V>(cfg: Config, s: Lru<V>, k: string)
    requires Valid(cfg, s) && k in s.items
    ensures |Promote(s, k).order| == |s.order|
  {
    PromoteValid(cfg, s, k);
    Sizes(cfg, s);
    Sizes(cfg, Promote(s, k));
  }

  lemma DoKeeps<V>(cs: Config, cl: Config, small: Lru<V>, large: Lru<V>, op: Timed<V>)
    requires Smaller(cs, cl) && Valid(cs, small) && Valid(cl, large) && Included(cs, cl, small, large)
    ensures Included(cs, cl, Do(cs, small, op), Do(cl, large, op))
  {
    match op
    case TSet(k, v, now) => PutKeeps(cs, cl, small, large, k, v, now);
    case TGet(k, t1, t2) => GetKeeps(cs, cl, small, large, k, t1, t2);
    case TDelete(k) =>
      if k in large.items {
        DeleteKeeps(cs, cl, small, large, k);
      }
    case TClear =>
    case TCleanup(now) =>
      RemoveKeeps(cs, cl, small, large, StaleKeys(cl, large, now), StaleKeys(cs, small, now));
  }

  lemma DoValid<V>(cfg: Config, s: Lru<V>, op: Timed<V>)
    requires Valid(cfg, s)
    ensures Valid(cfg, Do(cfg, s, op))
  {
    match op
    case TSet(k, v, now) => PutValid(cfg, s, k, v, now);
    case TGet(k, t1, t2) =>
      RemoveValid(cfg, s, {k});
      if k in s.items {
        PromoteValid(cfg, s, k);
      }
    case TDelete(k) => RemoveValid(cfg, s, {k});
    case TClear =>
    case TCleanup(now) => RemoveValid(cfg, s, StaleKeys(cfg, s, now));
  }

  /** After any timed operations the smaller cache is a part of the larger one. */
  lemma {:induction false} LruInclusion<V>(cs: Config, cl: Config, ops: seq<Timed<V>>)
    requires Smaller(cs, cl)
    ensures Valid(cs, DoAll(cs, ops)) && Valid(cl, DoAll(cl, ops))
    ensures Included(cs, cl, DoAll(cs, ops), DoAll(cl, ops))
  {
    if ops != [] {
      var init, op := ops[..|ops| - 1], ops[|ops| - 1];
      LruInclusion(cs, cl, init);
      DoKeeps(cs, cl, DoAll(cs, init), DoAll(cl, init), op);
      DoValid(cs, DoAll(cs, init), op);
      DoValid(cl, DoAll(cl, init), op);
    }
  }

  /** So every hit in the smaller cache is a hit in the larger one, with the same value. */
  lemma LargerNeverLosesAHit<V>(cs: Config, cl: Config, ops: seq<Timed<V>>, small: Lru<V>, large: Lru<V>, k: string,
                                now: int)
    requires Smaller(cs, cl) && small == DoAll(cs, ops) && large == DoAll(cl, ops)
    ensures Lookup(cs, small, k, now).Some? ==> Lookup(cl, large, k, now) == Lookup(cs, small, k, now)
  {
    LruInclusion(cs, cl, ops);
  }
}
