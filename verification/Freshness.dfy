/** What a concurrent run of the cache guarantees to its callers: linearizability, freshness of every
    hit, and a bound on how long an entry can stay. All statements are about every schedule. */
module Freshness {
  import opened Prelude
  import opened LruSpec
  import opened SplitGet

  /** Two calls have effects of their own, and if the first returned before the second was invoked
      they take effect in that order. */
  ghost predicate InRealOrder<V>(s: Sys<V>, a: nat, b: nat)
    requires a < |s.calls| && b < |s.calls| && s.calls[a].point.Some? && s.calls[b].point.Some?
  {
    var x, y := s.calls[a], s.calls[b];
    && (a != b ==> x.point != y.point)
    && (x.returned.Some? && x.returned.value <= y.invoked ==> x.point.value < y.point.value)
  }

  /** Every interleaving is linearizable: replaying the effects, in order, through the atomic expiring
      map is legal and ends in the cache's contents; every call took effect once, between its
      invocation and its return, with the answer it gave; no effect belongs to two calls; and calls
      that do not overlap take effect in their real order. */
  lemma Linearizable<V(!new)>(cfg: Config, s: Sys<V>)
    requires Reachable(cfg, s)
    ensures Valid(cfg, s.cache) && Linearized(cfg, s)
    ensures forall a, b ::
              0 <= a < |s.calls| && 0 <= b < |s.calls| && s.calls[a].point.Some? && s.calls[b].point.Some? ==>
              InRealOrder(s, a, b)
  {
    ReachableInv(cfg, s);
    forall a, b | 0 <= a < |s.calls| && 0 <= b < |s.calls| && s.calls[a].point.Some? && s.calls[b].point.Some?
      ensures InRealOrder(s, a, b)
    {
      assert CallOk(s, a) && CallOk(s, b);
    }
  }

  // ----- A declarative reading of the atomic map -----

  /** e sets, overwrites or removes key k. */
  ghost predicate Disturbs<V>(e: Event<V>, k: string) {
    match e
    case Looked(_, _, _) => false
    case Stored(key, _, _, lost) => key == k || k in lost
    case Removed(key) => key == k
    case Emptied => true
    case Swept(keys, _) => k in keys
    case Touched(_) => false
  }

  /** The position of the last event that disturbs k if that is a store of k, else -1. */
  ghost function LastWrite<V>(log: seq<Logged<V>>, k: string): (j: int)
    ensures -1 <= j < |log|
    ensures j >= 0 ==> log[j].event.Stored? && log[j].event.key == k
    ensures forall i :: 0 <= j < i < |log| ==> !Disturbs(log[i].event, k)
    ensures j == -1 ==> forall i :: 0 <= i < |log| && Disturbs(log[i].event, k) ==>
              !(log[i].event.Stored? && log[i].event.key == k) || exists m :: i < m < |log| && Disturbs(log[m].event, k)
  {
    if log == [] then -1
    else
      var n := |log| - 1;
      var e := log[n].event;
      if e.Stored? && e.key == k then n
      else if Disturbs(e, k) then -1
      else
        var j := LastWrite(log[..n], k);
        assert forall i :: 0 <= i < n ==> log[..n][i] == log[i];
        j
  }

  /** The replayed map holds k exactly if k was stored and not disturbed since, and then holds the
      value and the deadline of that store. */
  lemma {:induction false} ReplayIsLastWrite<V>(cfg: Config, log: seq<Logged<V>>, k: string)
    requires Replay(cfg, log).Some?
    ensures var m, j := Replay(cfg, log).value, LastWrite(log, k);
      && (k in m <==> j >= 0)
      && (k in m ==> m[k] == Slot(log[j].event.value, Deadline(cfg, log[j].event.now)))
  {
    if log != [] {
      ReplayIsLastWrite(cfg, log[..|log| - 1], k);
    }
  }

  lemma {:induction false} ReplayPrefix<V>(cfg: Config, log: seq<Logged<V>>, p: nat)
    requires Replay(cfg, log).Some? && p < |log|
    ensures Replay(cfg, log[..p]).Some? && Apply(cfg, Replay(cfg, log[..p]).value, log[p].event).Some?
  {
    if p < |log| - 1 {
      ReplayPrefix(cfg, log[..|log| - 1], p);
      assert log[..|log| - 1][..p] == log[..p];
    }
  }

  // ----- Freshness -----

  ghost predicate InTime<V>(cfg: Config, write: Event<V>, now: int)
    requires write.Stored?
  {
    cfg.ttl > 0 ==> now - write.now <= cfg.ttl
  }

  /** Under any interleaving a Get answers with the value of the latest Set of its key that nothing has
      removed since, if that Set is at most ttl old, and with a miss otherwise. Hits in between do not
      matter: a touch never extends a deadline. */
  lemma GetIsFresh<V(!new)>(cfg: Config, s: Sys<V>, c: nat)
    requires Reachable(cfg, s) && c < |s.calls| && s.calls[c].op.OpGet? && s.calls[c].point.Some?
    ensures var k, p := s.calls[c].op.key, s.calls[c].point.value;
      && p < |s.log| && s.log[p].event.Looked?
      && var j := LastWrite(s.log[..p], k);
         s.calls[c].answer ==
           if j >= 0 && InTime(cfg, s.log[j].event, s.log[p].event.now) then Some(s.log[j].event.value) else None
  {
    ReachableInv(cfg, s);
    assert CallOk(s, c);
    var k, p := s.calls[c].op.key, s.calls[c].point.value;
    ReplayPrefix(cfg, s.log, p);
    ReplayIsLastWrite(cfg, s.log[..p], k);
  }

  /** No interleaving expires an entry that was refreshed in the meantime: every key that a Get or the
      cleanup sweeps away had its latest Set more than ttl ago. */
  lemma SweptOnlyIfOverdue<V(!new)>(cfg: Config, s: Sys<V>, p: nat, k: string)
    requires Reachable(cfg, s) && p < |s.log| && s.log[p].event.Swept? && k in s.log[p].event.keys
    ensures var j := LastWrite(s.log[..p], k);
      j >= 0 && cfg.ttl > 0 && s.log[p].event.now - s.log[j].event.now > cfg.ttl
  {
    ReachableInv(cfg, s);
    ReplayPrefix(cfg, s.log, p);
    ReplayIsLastWrite(cfg, s.log[..p], k);
  }

  // ----- Residency -----

  /** Nothing that the last cleanup should have taken is still there. */
  ghost predicate SweptClean<V>(cfg: Config, s: Sys<V>) {
    s.swept <= s.clock && (cfg.ttl > 0 ==> forall k :: k in s.cache.items ==> s.cache.items[k].expiresAt >= s.swept)
  }

  lemma NextKeepsSwept<V>(cfg: Config, s: Sys<V>, step: Step<V>)
    requires Inv(cfg, s) && SweptClean(cfg, s)
    ensures SweptClean(cfg, Next(cfg, s, step))
  {
    if step.Act? && PcOf(s, step.thread).Called? {
      assert ThreadOk(s, step.thread);
      var c := PcOf(s, step.thread).call;
      if s.calls[c].op.OpSet? {
        PutValid(cfg, s.cache, s.calls[c].op.key, s.calls[c].op.value, s.clock);
      }
    }
  }

  lemma {:induction false} RunKeepsSwept<V>(cfg: Config, clock: int, steps: seq<Step<V>>)
    ensures SweptClean(cfg, Run(cfg, Start(clock), steps))
  {
    if steps != [] {
      var init := steps[..|steps| - 1];
      RunKeepsSwept(cfg, clock, init);
      RunKeeps(cfg, clock, init);
      NextKeepsSwept(cfg, Run(cfg, Start(clock), init), steps[|steps| - 1]);
    }
  }

  /** swept is the time of the last cleanup: of the creation at first, and set by cleanups only. */
  lemma SweptIsLastCleanup<V>(cfg: Config, s: Sys<V>, step: Step<V>, clock: int)
    requires step.Act? && PcOf(s, step.thread).Called? ==> PcOf(s, step.thread).call < |s.calls|
    ensures Start<V>(clock).swept == clock
    ensures Next(cfg, s, step).swept ==
              if step.Act? && PcOf(s, step.thread).Called? && s.calls[PcOf(s, step.thread).call].op.OpCleanup?
              then s.clock else s.swept
  {
    hide Put, Lookup, ProbeFor, Sweep, Expire, Touch;
  }

  /** Whenever the last cleanup (or the creation) is at most ttl/2 ago, as the ticker arranges, no
      resident entry was last Set more than ttl + ttl/2 ago, whatever happened in between. */
  lemma ResidencyBound<V(!new)>(cfg: Config, s: Sys<V>, k: string)
    requires Reachable(cfg, s) && k in s.cache.items && cfg.ttl > 0 && s.clock <= s.swept + cfg.ttl / 2
    ensures LastWrite(s.log, k) >= 0
    ensures s.clock - s.log[LastWrite(s.log, k)].event.now <= cfg.ttl + cfg.ttl / 2
    ensures s.cache.items[k].value == s.log[LastWrite(s.log, k)].event.value
  {
    var clock, steps :| s == Run(cfg, Start(clock), steps);
    ReachableInv(cfg, s);
    RunKeepsSwept(cfg, clock, steps);
    ReplayIsLastWrite(cfg, s.log, k);
    assert k in Contents(s.cache);
  }

  // ----- The sweep itself -----

  /** removeExpiredItems leaves exactly the unexpired entries, in their old order. */
  lemma SweepLeavesUnexpired<V>(cfg: Config, s: Lru<V>, now: int)
    requires Valid(cfg, s)
    ensures var r := Sweep(cfg, s, now);
      && Valid(cfg, r)
      && (forall k :: k in r.items <==> k in s.items && !Stale(cfg, s.items[k], now))
      && (forall k :: k in r.items ==> r.items[k] == s.items[k])
      && r.order == Drop(s.order, s.items.Keys - r.items.Keys)
      && r.evicted == s.evicted + |s.items.Keys - r.items.Keys|
  {
    var stale := StaleKeys(cfg, s, now);
    RemoveValid(cfg, s, stale);
    assert s.items.Keys - Sweep(cfg, s, now).items.Keys == stale;
    assert stale * s.items.Keys == stale;
  }
}
