/** How old a cached flag can be, under any interleaving. A run of ConcurrentStore is watched by a history
    that remembers when each operation was invoked, and who put each entry into the cache and when. */
module Provenance {
  import opened Prelude
  import opened Flags
  import opened LruSpec
  import opened ConcurrentStore
  import StoreSpec

  /** since: the number, in `past`, of the store's state at the invocation of the operation that cached the
      entry; at: the time at which it did so. */
  datatype Origin = Origin(since: nat, at: int)

  /** begun: for each thread the store's state at the invocation of its operation. */
  datatype Watched = Watched(s: Sys, begun: map<nat, nat>, origin: map<string, Origin>)

  function Watch(table: StoreSpec.Table, clock: int): Watched {
    Watched(ConcurrentStore.Start(table, clock), map[], map[])
  }

  function Newest(past: seq<StoreSpec.Table>): nat {
    if past == [] then 0 else |past| - 1
  }

  /** The flag that the thread's next step puts into the cache, with its key. */
  function Puts(pc: Pc): Option<(string, Flag)> {
    match pc
    case Fill(k, f) => Some((k, f))
    case Publish(f) => Some((f.key, f))
    case Warm(fs, i) => if i < |fs| then Some((fs[i].key, fs[i])) else None
    case _ => None
  }

  function BegunBy(w: Watched, t: nat): nat {
    if t in w.begun then w.begun[t] else 0
  }

  ghost function WatchNext(cfg: Config, w: Watched, step: Step): Watched {
    Watched(Next(cfg, w.s, step),
            if step.Invoke? && PcOf(w.s, step.thread).Idle? then w.begun[step.thread := Newest(w.s.past)] else w.begun,
            if step.Act? && Puts(PcOf(w.s, step.thread)).Some?
            then w.origin[Puts(PcOf(w.s, step.thread)).value.0 := Origin(BegunBy(w, step.thread), w.s.clock)]
            else w.origin)
  }

  ghost function WatchRun(cfg: Config, w: Watched, steps: seq<Step>): Watched {
    if steps == [] then w else WatchNext(cfg, WatchRun(cfg, w, steps[..|steps| - 1]), steps[|steps| - 1])
  }

  /** Watching changes nothing. */
  lemma {:induction false} WatchRunIsRun(cfg: Config, w: Watched, steps: seq<Step>)
    ensures WatchRun(cfg, w, steps).s == Run(cfg, w.s, steps)
  {
    if steps != [] {
      WatchRunIsRun(cfg, w, steps[..|steps| - 1]);
    }
  }

  // ----- The invariant -----

  /** The store held content f under key k in its state number `since` or a later one. */
  ghost predicate HeldSince(past: seq<StoreSpec.Table>, since: nat, k: string, f: Flag) {
    exists i :: since <= i < |past| && k in past[i] && Content(past[i][k]) == Content(f)
  }

  /** What the thread is about to cache was in the store no earlier than the thread's invocation. */
  ghost predicate Recent(past: seq<StoreSpec.Table>, since: nat, pc: Pc) {
    match pc
    case Fill(k, f) => HeldSince(past, since, k, f)
    case Publish(f) => HeldSince(past, since, f.key, f)
    case Warm(fs, _) => forall i :: 0 <= i < |fs| ==> HeldSince(past, since, fs[i].key, fs[i])
    case _ => true
  }

  ghost predicate EntryOk(cfg: Config, w: Watched, k: string)
    requires k in w.s.cache.items
  {
    && k in w.origin && w.origin[k].at <= w.s.clock
    && HeldSince(w.s.past, w.origin[k].since, k, w.s.cache.items[k].value)
    && w.s.cache.items[k].expiresAt == Deadline(cfg, w.origin[k].at)
  }

  ghost predicate ThreadOk(w: Watched, t: nat)
    requires t in w.s.threads
  {
    !w.s.threads[t].Idle? ==> BegunBy(w, t) < |w.s.past| && Recent(w.s.past, BegunBy(w, t), w.s.threads[t])
  }

  ghost predicate Fresh(cfg: Config, w: Watched) {
    && Inv(cfg, w.s)
    && (forall k :: k in w.s.cache.items ==> EntryOk(cfg, w, k))
    && (forall t :: t in w.s.threads ==> ThreadOk(w, t))
  }

  lemma HeldSinceLater(past: seq<StoreSpec.Table>, more: seq<StoreSpec.Table>, since: nat, k: string, f: Flag)
    requires HeldSince(past, since, k, f) && past <= more
    ensures HeldSince(more, since, k, f)
  {
    var i :| since <= i < |past| && k in past[i] && Content(past[i][k]) == Content(f);
    assert more[i] == past[i];
  }

  lemma RecentLater(past: seq<StoreSpec.Table>, more: seq<StoreSpec.Table>, since: nat, pc: Pc)
    requires Recent(past, since, pc) && past <= more
    ensures Recent(more, since, pc)
  {
    forall k, f | HeldSince(past, since, k, f) ensures HeldSince(more, since, k, f) {
      HeldSinceLater(past, more, since, k, f);
    }
  }

  // ----- Every step keeps it -----

  /** The past only grows, and what a thread takes along is either what it had or what the store has now. */
  lemma PastGrows(cfg: Config, s: Sys, step: Step)
    requires Inv(cfg, s)
    ensures s.past <= Next(cfg, s, step).past && s.clock <= Next(cfg, s, step).clock
  {
  }

  lemma RecentNext(cfg: Config, s: Sys, t: nat, order: seq<string>, since: nat)
    requires Inv(cfg, s) && since < |s.past| && Recent(s.past, since, PcOf(s, t))
    ensures var n := ActOf(cfg, s, t, order); Recent(n.past, since, PcOf(n, t))
  {
    hide BeginOf, CacheAfter, PcAfter, Recent;
    match PcOf(s, t)
    case Begin(op) => BeginRecent(cfg, s, t, op, order, since);
    case pc => RegionRecent(cfg, s, pc, since);
  }

  lemma RegionRecent(cfg: Config, s: Sys, pc: Pc, since: nat)
    requires Inv(cfg, s) && since < |s.past| && Recent(s.past, since, pc) && !pc.Begin?
    ensures Recent(s.past, since, PcAfter(s, pc))
  {
    hide Valid, Honest, HonestCache;
    if pc.Fetch? {
      assert s.past[|s.past| - 1] == s.table;
    }
  }

  lemma BeginRecent(cfg: Config, s: Sys, t: nat, op: Op, order: seq<string>, since: nat)
    requires Inv(cfg, s) && since < |s.past| && PcOf(s, t) == Begin(op)
    ensures var n := BeginOf(cfg, s, t, op, order); Recent(n.past, since, PcOf(n, t))
  {
    hide Valid, Honest, HonestCache;
    match op
    case OpGetAll =>
      if StoreSpec.Enumerates(order, s.table) {
        ListingRecent(s, order, since);
      }
    case OpSet(f) =>
      var n := BeginOf(cfg, s, t, op, order);
      assert n.past[|n.past| - 1] == n.table;
    case _ =>
  }

  lemma ListingRecent(s: Sys, order: seq<string>, since: nat)
    requires s.past != [] && s.past[|s.past| - 1] == s.table && StoreSpec.Keyed(s.table) && since < |s.past|
    requires StoreSpec.Enumerates(order, s.table)
    ensures forall k :: k in order ==> k in s.table
    ensures Recent(s.past, since, Warm(StoreSpec.Listing(s.table, order), 0))
  {
    assert forall k :: k in order ==> k in Elements(order);
    var fs := StoreSpec.Listing(s.table, order);
    forall i | 0 <= i < |fs| ensures HeldSince(s.past, since, fs[i].key, fs[i]) {
      assert order[i] in order;
      assert s.past[|s.past| - 1] == s.table;
    }
  }

  /** A key's entry has this value and deadline. */
  ghost predicate Has(c: Lru<Flag>, k: string, f: Flag, expiresAt: int) {
    k in c.items && c.items[k].value == f && c.items[k].expiresAt == expiresAt
  }

  /** An entry after a step is the one that the step put there, or an old one. */
  lemma EntryNext(cfg: Config, s: Sys, step: Step, k: string)
    requires Inv(cfg, s) && k in Next(cfg, s, step).cache.items
    ensures var c := Next(cfg, s, step).cache;
      if step.Act? && Puts(PcOf(s, step.thread)).Some? && Puts(PcOf(s, step.thread)).value.0 == k
      then Has(c, k, Puts(PcOf(s, step.thread)).value.1, Deadline(cfg, s.clock))
      else Has(s.cache, k, c.items[k].value, c.items[k].expiresAt)
  {
    hide CacheAfter, BeginOf, Inv, PcAfter;
    if step.Act? {
      var pc := PcOf(s, step.thread);
      CacheIsValid(cfg, s);
      if pc.Begin? {
        BeginKeepsCache(cfg, s, step.thread, pc.op, step.order);
      } else {
        EntryAfter(cfg, s, pc, k);
      }
    }
  }

  lemma CacheIsValid(cfg: Config, s: Sys)
    requires Inv(cfg, s)
    ensures Valid(cfg, s.cache)
  {
  }

  lemma BeginKeepsCache(cfg: Config, s: Sys, t: nat, op: Op, order: seq<string>)
    ensures BeginOf(cfg, s, t, op, order).cache == s.cache
  {
  }

  lemma EntryAfter(cfg: Config, s: Sys, pc: Pc, k: string)
    requires Valid(cfg, s.cache) && k in CacheAfter(cfg, s, pc).items
    ensures var c := CacheAfter(cfg, s, pc);
      if Puts(pc).Some? && Puts(pc).value.0 == k then Has(c, k, Puts(pc).value.1, Deadline(cfg, s.clock))
      else Has(s.cache, k, c.items[k].value, c.items[k].expiresAt)
  {
    hide Put, Valid;
    if Puts(pc).Some? {
      PutValid(cfg, s.cache, Puts(pc).value.0, Puts(pc).value.1, s.clock);
    }
  }

  lemma WatchNextKeeps(cfg: Config, w: Watched, step: Step)
    requires Fresh(cfg, w)
    ensures Fresh(cfg, WatchNext(cfg, w, step))
  {
    hide Next, Inv;
    var n := WatchNext(cfg, w, step);
    NextKeeps(cfg, w.s, step);
    PastGrows(cfg, w.s, step);
    forall k | k in n.s.cache.items ensures EntryOk(cfg, n, k) {
      EntryNextOk(cfg, w, step, k);
    }
    forall t | t in n.s.threads ensures ThreadOk(n, t) {
      ThreadNextOk(cfg, w, step, t);
    }
  }

  lemma EntryNextOk(cfg: Config, w: Watched, step: Step, k: string)
    requires Fresh(cfg, w) && k in Next(cfg, w.s, step).cache.items
    ensures EntryOk(cfg, WatchNext(cfg, w, step), k)
  {
    hide Next, Inv;
    var n := WatchNext(cfg, w, step);
    EntryNext(cfg, w.s, step, k);
    PastGrows(cfg, w.s, step);
    if step.Act? && Puts(PcOf(w.s, step.thread)).Some? && Puts(PcOf(w.s, step.thread)).value.0 == k {
      assert ThreadOk(w, step.thread);
      HeldSinceLater(w.s.past, n.s.past, BegunBy(w, step.thread), k, n.s.cache.items[k].value);
    } else {
      assert EntryOk(cfg, w, k);
      HeldSinceLater(w.s.past, n.s.past, w.origin[k].since, k, n.s.cache.items[k].value);
    }
  }

  lemma PcsStay(cfg: Config, s: Sys, step: Step, t: nat)
    ensures step.Act? && step.thread != t ==> PcOf(Next(cfg, s, step), t) == PcOf(s, t)
    ensures step.Act? && PcOf(s, step.thread).Idle? ==> PcOf(Next(cfg, s, step), step.thread).Idle?
    ensures Inv(cfg, s) ==> s.past != []
  {
    hide CacheAfter, StoreSpec.Set, StoreSpec.Delete, Valid, HonestCache, Honest;
  }

  lemma ThreadNextOk(cfg: Config, w: Watched, step: Step, t: nat)
    requires Fresh(cfg, w) && t in Next(cfg, w.s, step).threads
    ensures ThreadOk(WatchNext(cfg, w, step), t)
  {
    hide Inv, ActOf, ConcurrentStore.Held;
    PcsStay(cfg, w.s, step, t);
    var n := WatchNext(cfg, w, step);
    PastGrows(cfg, w.s, step);
    assert t in w.s.threads ==> ThreadOk(w, t);
    if step.Act? && step.thread == t {
      if t in w.s.threads && !w.s.threads[t].Idle? {
        RecentNext(cfg, w.s, t, step.order, BegunBy(w, t));
      }
    } else if t in w.s.threads {
      RecentLater(w.s.past, n.s.past, BegunBy(w, t), w.s.threads[t]);
    }
  }

  lemma {:induction false} WatchRunKeeps(cfg: Config, table: StoreSpec.Table, clock: int, steps: seq<Step>)
    requires StoreSpec.Keyed(table)
    ensures Fresh(cfg, WatchRun(cfg, Watch(table, clock), steps))
  {
    if steps == [] {
      RunKeeps(cfg, table, clock, []);
    } else {
      WatchRunKeeps(cfg, table, clock, steps[..|steps| - 1]);
      WatchNextKeeps(cfg, WatchRun(cfg, Watch(table, clock), steps[..|steps| - 1]), steps[|steps| - 1]);
    }
  }

  /** Under any interleaving: what a Get hits in the cache was the store's content no earlier than the
      invocation of the operation that cached it, and that operation did so at most ttl ago. */
  lemma HitIsRecent(cfg: Config, table: StoreSpec.Table, clock: int, steps: seq<Step>, w: Watched, k: string, f: Flag)
    requires StoreSpec.Keyed(table) && w == WatchRun(cfg, Watch(table, clock), steps)
    requires Lookup(cfg, w.s.cache, k, w.s.clock) == Some(f)
    ensures k in w.origin && HeldSince(w.s.past, w.origin[k].since, k, f) && w.origin[k].at <= w.s.clock
    ensures cfg.ttl > 0 ==> w.s.clock - w.origin[k].at <= cfg.ttl
  {
    WatchRunKeeps(cfg, table, clock, steps);
    assert EntryOk(cfg, w, k);
  }
}
