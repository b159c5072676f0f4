/** The cached store under concurrency: each of its operations is a store step followed by cache steps,
    and the steps of different threads interleave in any way. */
module ConcurrentStore {
  import opened Prelude
  import opened Flags
  import opened LruSpec
  import StoreSpec

  datatype Op = OpGet(key: string) | OpSet(flag: Flag) | OpDelete(key: string) | OpGetAll

  datatype Outcome = Got(flag: Result<Flag, Error>) | Wrote(err: Option<Error>) | Listed(flags: seq<Flag>)

  /** What a thread does next. */
  datatype Pc =
    | Idle
    | Begin(op: Op)
    | Expiring(key: string)                          // cache.Get: the write lock after an expired probe
    | Touching(key: string, item: nat, flag: Flag)   // cache.Get: the write lock after a hit
    | Fetch(key: string)                             // a miss: ask the store
    | Fill(key: string, flag: Flag)                  // cache what the store said
    | Publish(flag: Flag)                            // the store has it, the cache not yet
    | Unpublish(key: string)                         // the store dropped it, the cache not yet
    | Warm(flags: seq<Flag>, done: nat)              // GetAll: cache flag by flag
    | Finished(op: Op, outcome: Outcome)

  /** past: every state the store has been in, the present one last. */
  datatype Sys = Sys(table: StoreSpec.Table, cache: Lru<Flag>, threads: map<nat, Pc>, clock: int,
                     past: seq<StoreSpec.Table>)

  /** order is the map iteration order that a GetAll step meets. */
  datatype Step =
    | Invoke(thread: nat, op: Op)
    | Act(thread: nat, order: seq<string>)
    | Return(thread: nat)
    | Tick(d: nat)
    | Cleanup

  function Start(table: StoreSpec.Table, clock: int): Sys {
    Sys(table, Empty(), map[], clock, [table])
  }

  function PcOf(s: Sys, t: nat): Pc {
    if t in s.threads then s.threads[t] else Idle
  }

  function Goto(s: Sys, t: nat, pc: Pc): Sys {
    s.(threads := s.threads[t := pc])
  }

  function Store(s: Sys, m: StoreSpec.Table): Sys {
    s.(table := m, past := s.past + [m])
  }

  ghost function BeginOf(cfg: Config, s: Sys, t: nat, op: Op, order: seq<string>): Sys {
    match op
    case OpGet(k) => (
      match ProbeFor(cfg, s.cache, k, s.clock)
      case Absent => Goto(s, t, Fetch(k))
      case Expired => Goto(s, t, Expiring(k))
      case Found(f, item) => Goto(s, t, Touching(k, item, f)))
    case OpSet(f) =>
      if StoreSpec.SetError(f).Some? then Goto(s, t, Finished(op, Wrote(StoreSpec.SetError(f))))
      else Goto(Store(s, StoreSpec.Set(s.table, f, s.clock)), t, Publish(f))
    case OpDelete(k) =>
      if StoreSpec.DeleteError(s.table, k).Some? then Goto(s, t, Finished(op, Wrote(StoreSpec.DeleteError(s.table, k))))
      else Goto(Store(s, StoreSpec.Delete(s.table, k)), t, Unpublish(k))
    case OpGetAll =>
      if StoreSpec.Enumerates(order, s.table) then
        assert forall k :: k in order ==> k in Elements(order);
         Goto(s, t, Warm(StoreSpec.Listing(s.table, order), 0)) else s
  }

  /** What the next region of a thread past its beginning does to the cache. */
  function CacheAfter(cfg: Config, s: Sys, pc: Pc): Lru<Flag> {
    match pc
    case Expiring(k) => Expire(cfg, s.cache, k, s.clock)
    case Touching(k, item, _) => Touch(s.cache, k, item)
    case Fill(k, f) => Put(cfg, s.cache, k, f, s.clock)
    case Publish(f) => Put(cfg, s.cache, f.key, f, s.clock)
    case Unpublish(k) => Delete(s.cache, k)
    case Warm(fs, i) => if i < |fs| then Put(cfg, s.cache, fs[i].key, fs[i], s.clock) else s.cache
    case _ => s.cache
  }

  /** And where the thread goes from there. */
  function PcAfter(s: Sys, pc: Pc): Pc {
    match pc
    case Expiring(k) => Fetch(k)
    case Touching(k, _, f) => Finished(OpGet(k), Got(Ok(f)))
    case Fetch(k) => (
      match StoreSpec.Get(s.table, k)
      case Err(e) => Finished(OpGet(k), Got(Err(e)))
      case Ok(f) => Fill(k, f))
    case Fill(k, f) => Finished(OpGet(k), Got(Ok(f)))
    case Publish(f) => Finished(OpSet(f), Wrote(None))
    case Unpublish(k) => Finished(OpDelete(k), Wrote(None))
    case Warm(fs, i) => if i < |fs| then Warm(fs, i + 1) else Finished(OpGetAll, Listed(fs))
    case _ => pc
  }

  ghost function ActOf(cfg: Config, s: Sys, t: nat, order: seq<string>): Sys {
    match PcOf(s, t)
    case Begin(op) => BeginOf(cfg, s, t, op, order)
    case pc => Goto(s.(cache := CacheAfter(cfg, s, pc)), t, PcAfter(s, pc))
  }

  ghost function Next(cfg: Config, s: Sys, step: Step): Sys {
    match step
    case Invoke(t, op) => if PcOf(s, t).Idle? then Goto(s, t, Begin(op)) else s
    case Act(t, order) => ActOf(cfg, s, t, order)
    case Return(t) => if PcOf(s, t).Finished? then Goto(s, t, Idle) else s
    case Tick(d) => s.(clock := s.clock + d)
    case Cleanup => s.(cache := Sweep(cfg, s.cache, s.clock))
  }

  ghost function Run(cfg: Config, s: Sys, steps: seq<Step>): Sys {
    if steps == [] then s else Next(cfg, Run(cfg, s, steps[..|steps| - 1]), steps[|steps| - 1])
  }

  // ----- No invented values -----

  /** The store held content f under key k at some time. */
  ghost predicate Held(past: seq<StoreSpec.Table>, k: string, f: Flag) {
    exists i :: 0 <= i < |past| && k in past[i] && Content(past[i][k]) == Content(f)
  }

  /** Everything a thread carries was in the store once. */
  ghost predicate Honest(past: seq<StoreSpec.Table>, pc: Pc) {
    match pc
    case Touching(k, _, f) => Held(past, k, f)
    case Fill(k, f) => Held(past, k, f)
    case Publish(f) => Held(past, f.key, f)
    case Warm(fs, _) => forall i :: 0 <= i < |fs| ==> Held(past, fs[i].key, fs[i])
    case Finished(op, outcome) => (
      match outcome
      case Got(r) => r.Ok? ==> op.OpGet? && Held(past, op.key, r.value)
      case Listed(fs) => forall i :: 0 <= i < |fs| ==> Held(past, fs[i].key, fs[i])
      case Wrote(_) => true)
    case _ => true
  }

  ghost predicate HonestCache(past: seq<StoreSpec.Table>, cache: Lru<Flag>) {
    forall k :: k in cache.items ==> Held(past, k, cache.items[k].value)
  }

  ghost predicate Inv(cfg: Config, s: Sys) {
    && Valid(cfg, s.cache) && StoreSpec.Keyed(s.table)
    && s.past != [] && s.past[|s.past| - 1] == s.table
    && HonestCache(s.past, s.cache)
    && forall t :: t in s.threads ==> Honest(s.past, s.threads[t])
  }

  lemma HeldNow(s: Sys, k: string, f: Flag)
    requires s.past != [] && s.past[|s.past| - 1] == s.table && k in s.table && Content(s.table[k]) == Content(f)
    ensures Held(s.past, k, f)
  {
  }

  lemma HeldLater(past: seq<StoreSpec.Table>, m: StoreSpec.Table, k: string, f: Flag)
    requires Held(past, k, f)
    ensures Held(past + [m], k, f)
  {
    var i :| 0 <= i < |past| && k in past[i] && Content(past[i][k]) == Content(f);
    assert (past + [m])[i] == past[i];
  }

  lemma HonestLater(past: seq<StoreSpec.Table>, m: StoreSpec.Table, pc: Pc)
    requires Honest(past, pc)
    ensures Honest(past + [m], pc)
  {
    forall k, f | Held(past, k, f) ensures Held(past + [m], k, f) {
      HeldLater(past, m, k, f);
    }
  }

  lemma StoreKeeps(cfg: Config, s: Sys, m: StoreSpec.Table)
    requires Inv(cfg, s) && StoreSpec.Keyed(m)
    ensures Inv(cfg, Store(s, m))
  {
    forall k | k in s.cache.items ensures Held(s.past + [m], k, s.cache.items[k].value) {
      HeldLater(s.past, m, k, s.cache.items[k].value);
    }
    forall t | t in s.threads ensures Honest(s.past + [m], s.threads[t]) {
      HonestLater(s.past, m, s.threads[t]);
    }
  }

  lemma GotoKeeps(cfg: Config, s: Sys, t: nat, pc: Pc)
    requires Inv(cfg, s) && Honest(s.past, pc)
    ensures Inv(cfg, Goto(s, t, pc))
  {
  }

  lemma CacheKeeps(cfg: Config, s: Sys, cache: Lru<Flag>)
    requires Inv(cfg, s) && Valid(cfg, cache) && HonestCache(s.past, cache)
    ensures Inv(cfg, s.(cache := cache))
  {
  }

  lemma PutHonest(cfg: Config, past: seq<StoreSpec.Table>, c: Lru<Flag>, k: string, f: Flag, now: int)
    requires Valid(cfg, c) && HonestCache(past, c) && Held(past, k, f)
    ensures Valid(cfg, Put(cfg, c, k, f, now)) && HonestCache(past, Put(cfg, c, k, f, now))
  {
    PutValid(cfg, c, k, f, now);
  }

  lemma RegionHonest(cfg: Config, s: Sys, pc: Pc)
    requires Inv(cfg, s) && Honest(s.past, pc)
    ensures Valid(cfg, CacheAfter(cfg, s, pc)) && HonestCache(s.past, CacheAfter(cfg, s, pc))
    ensures Honest(s.past, PcAfter(s, pc))
  {
    match pc
    case Expiring(k) => ExpireValid(cfg, s.cache, k, s.clock);
    case Touching(k, item, _) => TouchValid(cfg, s.cache, k, item);
    case Fetch(k) => if k in s.table { HeldNow(s, k, s.table[k]); }
    case Fill(k, f) => PutHonest(cfg, s.past, s.cache, k, f, s.clock);
    case Publish(f) => PutHonest(cfg, s.past, s.cache, f.key, f, s.clock);
    case Unpublish(k) => DeleteValid(cfg, s.cache, k);
    case Warm(fs, i) => if i < |fs| { PutHonest(cfg, s.past, s.cache, fs[i].key, fs[i], s.clock); }
    case _ =>
  }

  lemma BeginKeeps(cfg: Config, s: Sys, t: nat, op: Op, order: seq<string>)
    requires Inv(cfg, s)
    ensures Inv(cfg, BeginOf(cfg, s, t, op, order))
  {
    hide Held;
    match op
    case OpGet(k) => GotoKeeps(cfg, s, t, PcOf(BeginOf(cfg, s, t, op, order), t));
    case OpSet(f) =>
      if StoreSpec.SetError(f).Some? {
        GotoKeeps(cfg, s, t, Finished(op, Wrote(StoreSpec.SetError(f))));
      } else {
        var n := Store(s, StoreSpec.Set(s.table, f, s.clock));
        StoreSpec.SetKeyed(s.table, f, s.clock);
        StoreKeeps(cfg, s, n.table);
        HeldNow(n, f.key, f);
        GotoKeeps(cfg, n, t, Publish(f));
      }
    case OpDelete(k) =>
      if StoreSpec.DeleteError(s.table, k).Some? {
        GotoKeeps(cfg, s, t, Finished(op, Wrote(StoreSpec.DeleteError(s.table, k))));
      } else {
        StoreKeeps(cfg, s, StoreSpec.Delete(s.table, k));
        GotoKeeps(cfg, Store(s, StoreSpec.Delete(s.table, k)), t, Unpublish(k));
      }
    case OpGetAll =>
      if StoreSpec.Enumerates(order, s.table) {
        ListingHeld(s, order);
        GotoKeeps(cfg, s, t, Warm(StoreSpec.Listing(s.table, order), 0));
      }
  }

  lemma ListingHeld(s: Sys, order: seq<string>)
    requires s.past != [] && s.past[|s.past| - 1] == s.table && StoreSpec.Keyed(s.table)
    requires StoreSpec.Enumerates(order, s.table)
    ensures forall k :: k in order ==> k in s.table
    ensures var fs := StoreSpec.Listing(s.table, order); forall i :: 0 <= i < |fs| ==> Held(s.past, fs[i].key, fs[i])
  {
    assert forall k :: k in order ==> k in Elements(order);
    var fs := StoreSpec.Listing(s.table, order);
    forall i | 0 <= i < |fs| ensures Held(s.past, fs[i].key, fs[i]) {
      assert order[i] in order;
      HeldNow(s, fs[i].key, fs[i]);
    }
  }

  lemma ActKeeps(cfg: Config, s: Sys, t: nat, order: seq<string>)
    requires Inv(cfg, s)
    ensures Inv(cfg, ActOf(cfg, s, t, order))
  {
    match PcOf(s, t)
    case Begin(op) => BeginKeeps(cfg, s, t, op, order);
    case pc =>
      RegionHonest(cfg, s, pc);
      CacheKeeps(cfg, s, CacheAfter(cfg, s, pc));
      GotoKeeps(cfg, s.(cache := CacheAfter(cfg, s, pc)), t, PcAfter(s, pc));
  }

  lemma NextKeeps(cfg: Config, s: Sys, step: Step)
    requires Inv(cfg, s)
    ensures Inv(cfg, Next(cfg, s, step))
  {
    match step
    case Invoke(t, op) => GotoKeeps(cfg, s, t, Begin(op));
    case Act(t, order) => ActKeeps(cfg, s, t, order);
    case Return(t) => GotoKeeps(cfg, s, t, Idle);
    case Tick(d) =>
    case Cleanup =>
      RemoveValid(cfg, s.cache, StaleKeys(cfg, s.cache, s.clock));
      CacheKeeps(cfg, s, Sweep(cfg, s.cache, s.clock));
  }

  lemma {:induction false} RunKeeps(cfg: Config, table: StoreSpec.Table, clock: int, steps: seq<Step>)
    requires StoreSpec.Keyed(table)
    ensures Inv(cfg, Run(cfg, Start(table, clock), steps))
  {
    if steps != [] {
      RunKeeps(cfg, table, clock, steps[..|steps| - 1]);
      NextKeeps(cfg, Run(cfg, Start(table, clock), steps[..|steps| - 1]), steps[|steps| - 1]);
    }
  }

  /** Under any interleaving, a flag that a Get returns (and any flag that a GetAll returns or the cache
      holds) equals, but for timestamps, one that the store held under that key at some time. */
  lemma NoInventedValues(cfg: Config, table: StoreSpec.Table, clock: int, steps: seq<Step>, t: nat, key: string,
                         f: Flag)
    requires StoreSpec.Keyed(table)
    ensures var s := Run(cfg, Start(table, clock), steps);
      && (PcOf(s, t) == Finished(OpGet(key), Got(Ok(f))) ==> Held(s.past, key, f))
      && (PcOf(s, t).Finished? && PcOf(s, t).outcome.Listed? && f in PcOf(s, t).outcome.flags ==>
            Held(s.past, f.key, f))
      && (key in s.cache.items && s.cache.items[key].value == f ==> Held(s.past, key, f))
  {
    RunKeeps(cfg, table, clock, steps);
  }
}
