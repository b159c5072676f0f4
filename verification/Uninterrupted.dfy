/** An operation of the step system that no other thread interrupts, with the clock ticking between its steps,
    does and counts and answers what Backend says: the step system and the sequential cached store are two
    views of the same code. */
module Uninterrupted {
  import opened Prelude
  import opened Flags
  import opened LruSpec
  import opened Backend
  import opened ConcurrentStore
  import opened Counting
  import StoreSpec

  /** The state of the step system as a backend; Counting does not count successes. */
  function AsBackend(c: Counted): Backend {
    Backend(c.s.table, Some(c.s.cache), Counts(c.hits, c.misses, c.storageOperations, 0))
  }

  function Uncounted(b: Backend): Backend {
    b.(counts := b.counts.(storageSuccesses := 0))
  }

  // ----- Runs of a few steps -----

  lemma CountOn(cfg: Config, c: Counted, steps: seq<Step>, more: seq<Step>)
    ensures CountRun(cfg, c, steps + more) == CountRun(cfg, CountRun(cfg, c, steps), more)
  {
    if more == [] {
      assert steps + more == steps;
    } else {
      var init := more[..|more| - 1];
      assert (steps + more)[..|steps + more| - 1] == steps + init;
      CountOn(cfg, c, steps, init);
    }
  }

  lemma Count1(cfg: Config, c: Counted, a: Step)
    ensures CountRun(cfg, c, [a]) == CountNext(cfg, c, a)
  {
    assert [a][..0] == [];
  }

  lemma Count2(cfg: Config, c: Counted, a: Step, b: Step)
    ensures CountRun(cfg, c, [a, b]) == CountNext(cfg, CountNext(cfg, c, a), b)
  {
    hide CountNext;
    assert [a, b][..1] == [a];
    Count1(cfg, c, a);
  }

  lemma Count3(cfg: Config, c: Counted, a: Step, b: Step, d: Step)
    ensures CountRun(cfg, c, [a, b, d]) == CountNext(cfg, CountNext(cfg, CountNext(cfg, c, a), b), d)
  {
    hide CountNext;
    assert [a, b, d][..2] == [a, b];
    Count2(cfg, c, a, b);
  }

  // ----- Get -----

  function Probe(t: nat, k: string): seq<Step> {
    [Invoke(t, OpGet(k)), Act(t, [])]
  }

  function Later(t: nat, d: nat): seq<Step> {
    [Tick(d), Act(t, [])]
  }

  function AskAndFill(t: nat, d: nat): seq<Step> {
    [Act(t, []), Tick(d), Act(t, [])]
  }

  lemma Probes(cfg: Config, c: Counted, t: nat, k: string)
    requires PcOf(c.s, t).Idle?
    ensures var n := CountRun(cfg, c, Probe(t, k));
      && n.s.table == c.s.table && n.s.cache == c.s.cache && n.s.clock == c.s.clock
      && n.hits == c.hits && n.storageOperations == c.storageOperations
      && (match ProbeFor(cfg, c.s.cache, k, c.s.clock)
          case Absent => PcOf(n.s, t) == Fetch(k) && n.misses == c.misses + 1
          case Expired => PcOf(n.s, t) == Expiring(k) && n.misses == c.misses
          case Found(f, item) => PcOf(n.s, t) == Touching(k, item, f) && n.misses == c.misses)
  {
    hide CountRun;
    Count2(cfg, c, Invoke(t, OpGet(k)), Act(t, []));
  }

  lemma HitTouches(cfg: Config, c: Counted, t: nat, k: string, item: nat, f: Flag, d: nat)
    requires PcOf(c.s, t) == Touching(k, item, f)
    ensures var n := CountRun(cfg, c, Later(t, d));
      && n.s.table == c.s.table && n.s.cache == Touch(c.s.cache, k, item) && n.s.clock == c.s.clock + d
      && n.hits == c.hits + 1 && n.misses == c.misses && n.storageOperations == c.storageOperations
      && PcOf(n.s, t) == Finished(OpGet(k), Got(Ok(f)))
  {
    hide CountRun, Touch;
    Count2(cfg, c, Tick(d), Act(t, []));
  }

  lemma Expires(cfg: Config, c: Counted, t: nat, k: string, d: nat)
    requires PcOf(c.s, t) == Expiring(k)
    ensures var n := CountRun(cfg, c, Later(t, d));
      && n.s.table == c.s.table && n.s.cache == Expire(cfg, c.s.cache, k, c.s.clock + d) && n.s.clock == c.s.clock + d
      && n.hits == c.hits && n.misses == c.misses + 1 && n.storageOperations == c.storageOperations
      && PcOf(n.s, t) == Fetch(k)
  {
    hide CountRun, Expire;
    Count2(cfg, c, Tick(d), Act(t, []));
  }

  lemma Fetches(cfg: Config, c: Counted, t: nat, k: string, d: nat)
    requires PcOf(c.s, t) == Fetch(k)
    ensures var n, r := CountRun(cfg, c, AskAndFill(t, d)), StoreSpec.Get(c.s.table, k);
      && n.s.table == c.s.table
      && n.s.cache == (if r.Ok? then Put(cfg, c.s.cache, k, r.value, c.s.clock + d) else c.s.cache)
      && n.hits == c.hits && n.misses == c.misses && n.storageOperations == c.storageOperations + 1
      && PcOf(n.s, t) == Finished(OpGet(k), Got(r))
  {
    hide CountRun, Put;
    Count3(cfg, c, Act(t, []), Tick(d), Act(t, []));
  }

  /** The steps of a Get, with a and d passing between them. */
  function GetSteps(cfg: Config, s: Sys, t: nat, k: string, a: nat, d: nat): seq<Step> {
    match ProbeFor(cfg, s.cache, k, s.clock)
    case Absent => Probe(t, k) + AskAndFill(t, d)
    case Expired => Probe(t, k) + Later(t, a) + AskAndFill(t, d)
    case Found(_, _) => Probe(t, k) + Later(t, a)
  }

  lemma GetAlone(cfg: Config, c: Counted, t: nat, k: string, a: nat, d: nat)
    requires PcOf(c.s, t).Idle?
    ensures var n, now := CountRun(cfg, c, GetSteps(cfg, c.s, t, k, a, d)), c.s.clock;
      var t3 := now + d + if ProbeFor(cfg, c.s.cache, k, now).Expired? then a else 0;
      && AsBackend(n) == Uncounted(AfterBackendGet(cfg, AsBackend(c), k, now, now + a, t3))
      && PcOf(n.s, t) == Finished(OpGet(k), Got(GetResult(cfg, AsBackend(c), k, now)))
  {
    hide CountRun, Put, Touch, Expire;
    var c1 := CountRun(cfg, c, Probe(t, k));
    Probes(cfg, c, t, k);
    match ProbeFor(cfg, c.s.cache, k, c.s.clock)
    case Absent =>
      CountOn(cfg, c, Probe(t, k), AskAndFill(t, d));
      Fetches(cfg, c1, t, k, d);
    case Expired =>
      CountOn(cfg, c, Probe(t, k), Later(t, a));
      CountOn(cfg, c, Probe(t, k) + Later(t, a), AskAndFill(t, d));
      Expires(cfg, c1, t, k, a);
      Fetches(cfg, CountRun(cfg, c1, Later(t, a)), t, k, d);
    case Found(f, item) =>
      CountOn(cfg, c, Probe(t, k), Later(t, a));
      HitTouches(cfg, c1, t, k, item, f, a);
  }

  // ----- Set and Delete -----

  lemma SetAlone(cfg: Config, c: Counted, t: nat, f: Flag, d: nat)
    requires PcOf(c.s, t).Idle?
    ensures var n, now := CountRun(cfg, c, [Invoke(t, OpSet(f)), Act(t, [])] + Later(t, d)), c.s.clock;
      && AsBackend(n) == Uncounted(AfterBackendSet(cfg, AsBackend(c), f, now, now + d))
      && PcOf(n.s, t) == Finished(OpSet(f), Wrote(StoreSpec.SetError(f)))
  {
    hide CountRun, Put, StoreSpec.Set;
    var begin := [Invoke(t, OpSet(f)), Act(t, [])];
    CountOn(cfg, c, begin, Later(t, d));
    Count2(cfg, c, Invoke(t, OpSet(f)), Act(t, []));
    Count2(cfg, CountRun(cfg, c, begin), Tick(d), Act(t, []));
    StoreSpec.SetNothing(c.s.table, f, c.s.clock);
  }

  lemma DeleteAlone(cfg: Config, c: Counted, t: nat, k: string, d: nat)
    requires PcOf(c.s, t).Idle?
    ensures var n := CountRun(cfg, c, [Invoke(t, OpDelete(k)), Act(t, [])] + Later(t, d));
      && AsBackend(n) == Uncounted(AfterBackendDelete(AsBackend(c), k))
      && PcOf(n.s, t) == Finished(OpDelete(k), Wrote(StoreSpec.DeleteError(c.s.table, k)))
  {
    hide CountRun, Remove;
    var begin := [Invoke(t, OpDelete(k)), Act(t, [])];
    CountOn(cfg, c, begin, Later(t, d));
    Count2(cfg, c, Invoke(t, OpDelete(k)), Act(t, []));
    Count2(cfg, CountRun(cfg, c, begin), Tick(d), Act(t, []));
  }

  // ----- GetAll -----

  function Acts(t: nat, n: nat): seq<Step> {
    if n == 0 then [] else Acts(t, n - 1) + [Act(t, [])]
  }

  function Same(now: int, n: nat): (times: seq<int>)
    ensures |times| == n
  {
    seq(n, _ => now)
  }

  lemma {:induction false} Warms(cfg: Config, c: Counted, t: nat, fs: seq<Flag>, n: nat)
    requires PcOf(c.s, t) == Warm(fs, 0) && n <= |fs|
    ensures var m := CountRun(cfg, c, Acts(t, n));
      && m.s.table == c.s.table && m.s.clock == c.s.clock && PcOf(m.s, t) == Warm(fs, n)
      && m.s.cache == WarmAll(cfg, c.s.cache, fs[..n], Same(c.s.clock, |fs|))
      && m.hits == c.hits && m.misses == c.misses && m.storageOperations == c.storageOperations
  {
    hide Put, CountNext;
    if n > 0 {
      Warms(cfg, c, t, fs, n - 1);
      assert Acts(t, n)[..|Acts(t, n)| - 1] == Acts(t, n - 1);
      assert fs[..n][..n - 1] == fs[..n - 1];
      WarmsOne(cfg, CountRun(cfg, c, Acts(t, n - 1)), t, fs, n - 1);
    }
  }

  lemma WarmsOne(cfg: Config, c: Counted, t: nat, fs: seq<Flag>, i: nat)
    requires PcOf(c.s, t) == Warm(fs, i) && i < |fs|
    ensures CountNext(cfg, c, Act(t, []))
         == c.(s := Goto(c.s.(cache := Put(cfg, c.s.cache, fs[i].key, fs[i], c.s.clock)), t, Warm(fs, i + 1)))
  {
    hide Put;
  }

  lemma GetAllAlone(cfg: Config, c: Counted, t: nat, order: seq<string>)
    requires PcOf(c.s, t).Idle? && StoreSpec.Enumerates(order, c.s.table) && forall k :: k in order ==> k in c.s.table
    ensures var n := CountRun(cfg, c, [Invoke(t, OpGetAll), Act(t, order)] + Acts(t, |order|) + [Act(t, [])]);
      var fs := StoreSpec.Listing(c.s.table, order);
      && AsBackend(n) == Uncounted(AfterBackendGetAll(cfg, AsBackend(c), fs, Same(c.s.clock, |order|)))
      && PcOf(n.s, t) == Finished(OpGetAll, Listed(fs))
  {
    hide CountRun, WarmAll, StoreSpec.Enumerates;
    var begin := [Invoke(t, OpGetAll), Act(t, order)];
    var fs := StoreSpec.Listing(c.s.table, order);
    CountOn(cfg, c, begin, Acts(t, |order|));
    CountOn(cfg, c, begin + Acts(t, |order|), [Act(t, [])]);
    Count2(cfg, c, Invoke(t, OpGetAll), Act(t, order));
    var c1 := CountRun(cfg, c, begin);
    assert PcOf(c1.s, t) == Warm(fs, 0);
    Warms(cfg, c1, t, fs, |fs|);
    assert fs[..|fs|] == fs;
    Count1(cfg, CountRun(cfg, c1, Acts(t, |order|)), Act(t, []));
  }
}
