/** Coherence under concurrency, when operations on one key do not overlap with a write of that key:
    other keys, eviction, expiry and cleanup interleave freely, and reads may overlap with reads. */
module SerialisedStore {
  import opened Prelude
  import opened Flags
  import opened LruSpec
  import opened Backend
  import opened ConcurrentStore
  import StoreSpec

  /** The operation that a thread has in flight; it is in flight until it returns. */
  function OpOf(pc: Pc): Option<Op> {
    match pc
    case Idle => None
    case Begin(op) => Some(op)
    case Expiring(k) => Some(OpGet(k))
    case Touching(k, _, _) => Some(OpGet(k))
    case Fetch(k) => Some(OpGet(k))
    case Fill(k, _) => Some(OpGet(k))
    case Publish(f) => Some(OpSet(f))
    case Unpublish(k) => Some(OpDelete(k))
    case Warm(_, _) => Some(OpGetAll)
    case Finished(op, _) => Some(op)
  }

  /** A Set or Delete of an invalid key writes nothing. */
  predicate WritesKey(op: Op, k: string) {
    ValidKey(k) && ((op.OpSet? && op.flag.key == k) || (op.OpDelete? && op.key == k))
  }

  predicate UsesKey(op: Op, k: string) {
    WritesKey(op, k) || op.OpGetAll? || (op.OpGet? && op.key == k)
  }

  /** Two Deletes, or two Sets of the same content: writes that agree on what they leave behind. */
  predicate Agree(a: Op, b: Op) {
    (a.OpDelete? && b.OpDelete?) || (a.OpSet? && b.OpSet? && Content(a.flag) == Content(b.flag))
  }

  /** One writes a key that the other uses, and they do not agree. Overlap shows that exactly the pairs
      that clash can leave the cache incoherent. */
  ghost predicate Clash(a: Op, b: Op) {
    !Agree(a, b) && exists k :: UsesKey(a, k) && UsesKey(b, k) && (WritesKey(a, k) || WritesKey(b, k))
  }

  /** A call may start only when nothing in flight clashes with it. */
  ghost predicate Allowed(s: Sys, step: Step) {
    step.Invoke? && PcOf(s, step.thread).Idle? ==>
      forall u :: u in s.threads && OpOf(s.threads[u]).Some? ==> !Clash(step.op, OpOf(s.threads[u]).value)
  }

  ghost predicate Serialised(cfg: Config, s: Sys, steps: seq<Step>) {
    steps != [] ==>
      var init := steps[..|steps| - 1];
      Serialised(cfg, s, init) && Allowed(Run(cfg, s, init), steps[|steps| - 1])
  }

  // ----- The invariant -----

  ghost predicate Fits(m: StoreSpec.Table, k: string, f: Flag) {
    k in m && Content(m[k]) == Content(f)
  }

  /** The store has been written and the cache not yet. */
  ghost predicate PendingAt(pc: Pc, k: string) {
    (pc.Publish? && pc.flag.key == k) || (pc.Unpublish? && pc.key == k)
  }

  ghost predicate Pending(s: Sys, k: string) {
    exists u :: u in s.threads && PendingAt(s.threads[u], k)
  }

  ghost predicate FitsAll(m: StoreSpec.Table, fs: seq<Flag>) {
    |fs| == |m| && forall i :: 0 <= i < |fs| ==> Fits(m, fs[i].key, fs[i])
  }

  /** The outcome of a Get or a GetAll is what the store holds now. */
  ghost predicate Truthful(m: StoreSpec.Table, op: Op, outcome: Outcome) {
    match op
    case OpGet(k) => outcome.Got? && (match outcome.flag
      case Ok(f) => Fits(m, k, f)
      case Err(e) => StoreSpec.Get(m, k) == Err(e))
    case OpGetAll => outcome.Listed? && FitsAll(m, outcome.flags)
    case _ => true
  }

  /** What a thread carries is what the store holds now. */
  ghost predicate Settled(m: StoreSpec.Table, pc: Pc) {
    match pc
    case Touching(k, _, f) => Fits(m, k, f)
    case Fill(k, f) => Fits(m, k, f)
    case Publish(f) => Fits(m, f.key, f)
    case Unpublish(k) => k !in m && ValidKey(k)
    case Warm(fs, _) => FitsAll(m, fs)
    case Finished(op, outcome) => Truthful(m, op, outcome)
    case _ => true
  }

  ghost predicate NoClash(s: Sys) {
    forall t, u ::
      t in s.threads && u in s.threads && t != u && OpOf(s.threads[t]).Some? && OpOf(s.threads[u]).Some? ==>
      !Clash(OpOf(s.threads[t]).value, OpOf(s.threads[u]).value)
  }

  ghost predicate CacheFits(s: Sys) {
    forall k :: k in s.cache.items ==> Fits(s.table, k, s.cache.items[k].value) || Pending(s, k)
  }

  ghost predicate Orderly(cfg: Config, s: Sys) {
    && Valid(cfg, s.cache) && StoreSpec.Keyed(s.table)
    && NoClash(s)
    && CacheFits(s)
    && forall t :: t in s.threads ==> Settled(s.table, s.threads[t])
  }

  /** While t works on k, whoever else has a write of k pending agrees with t, and if t writes k everybody
      else who uses k agrees with t. */
  lemma Alone(s: Sys, t: nat, u: nat, k: string)
    requires NoClash(s) && t in s.threads && u in s.threads && t != u
    requires OpOf(s.threads[t]).Some? && UsesKey(OpOf(s.threads[t]).value, k)
    requires OpOf(s.threads[u]).Some? && Settled(s.table, s.threads[u]) && StoreSpec.Keyed(s.table)
    ensures PendingAt(s.threads[u], k) ==> Agree(OpOf(s.threads[t]).value, OpOf(s.threads[u]).value)
    ensures WritesKey(OpOf(s.threads[t]).value, k) && UsesKey(OpOf(s.threads[u]).value, k) ==>
              Agree(OpOf(s.threads[t]).value, OpOf(s.threads[u]).value)
  {
    assert !Clash(OpOf(s.threads[t]).value, OpOf(s.threads[u]).value);
    assert PendingAt(s.threads[u], k) ==> WritesKey(OpOf(s.threads[u]).value, k);
  }

  /** A thread that does not use k does not care what happens to it. */
  lemma SettledElsewhere(m: StoreSpec.Table, n: StoreSpec.Table, pc: Pc, k: string)
    requires Settled(m, pc) && OpOf(pc).Some? && StoreSpec.Keyed(m) && ValidKey(k) && !UsesKey(OpOf(pc).value, k)
    requires forall j :: j != k ==> (j in m <==> j in n) && (j in m ==> m[j] == n[j])
    ensures Settled(n, pc)
  {
  }

  /** A write settles whoever agrees with it. */
  lemma SettledAlike(m: StoreSpec.Table, n: StoreSpec.Table, pc: Pc, op: Op, k: string)
    requires Settled(m, pc) && OpOf(pc).Some? && Agree(op, OpOf(pc).value) && WritesKey(op, k)
    requires forall j :: j != k ==> (j in m <==> j in n) && (j in m ==> m[j] == n[j])
    requires if op.OpSet? then Fits(n, k, op.flag) else k !in n
    ensures Settled(n, pc)
  {
  }

  /** A store step of thread t on key k. */
  lemma WriteOrderly(cfg: Config, s: Sys, t: nat, k: string, m: StoreSpec.Table, pc: Pc)
    requires Orderly(cfg, s) && t in s.threads && s.threads[t].Begin? && WritesKey(s.threads[t].op, k)
    requires StoreSpec.Keyed(m) && forall j :: j != k ==> (j in m <==> j in s.table) && (j in m ==> m[j] == s.table[j])
    requires OpOf(pc) == OpOf(s.threads[t]) && PendingAt(pc, k) && Settled(m, pc)
    ensures Orderly(cfg, Goto(Store(s, m), t, pc))
  {
    hide Valid;
    var n := Goto(Store(s, m), t, pc);
    forall u | u in n.threads ensures Settled(m, n.threads[u]) {
      if u != t && OpOf(s.threads[u]).Some? {
        Alone(s, t, u, k);
        if UsesKey(OpOf(s.threads[u]).value, k) {
          SettledAlike(s.table, m, s.threads[u], s.threads[t].op, k);
        } else {
          SettledElsewhere(s.table, m, s.threads[u], k);
        }
      }
    }
    forall j | j in n.cache.items ensures Fits(m, j, n.cache.items[j].value) || Pending(n, j) {
      if j == k {
        assert PendingAt(n.threads[t], k);
      } else if Pending(s, j) {
        var u :| u in s.threads && PendingAt(s.threads[u], j);
        assert u != t && n.threads[u] == s.threads[u];
      }
    }
  }

  /** A step of thread t that leaves the store alone: new entries fit, and what t had pending is gone. */
  lemma RegionOrderly(cfg: Config, s: Sys, t: nat, cache: Lru<Flag>, pc: Pc)
    requires Orderly(cfg, s) && t in s.threads && Valid(cfg, cache)
    requires OpOf(pc) == OpOf(s.threads[t]) && Settled(s.table, pc)
    requires Admits(s, s.threads[t], cache)
    ensures Orderly(cfg, Goto(s.(cache := cache), t, pc))
  {
    var n := Goto(s.(cache := cache), t, pc);
    forall k | k in cache.items ensures Fits(s.table, k, cache.items[k].value) || Pending(n, k) {
      if !Fits(s.table, k, cache.items[k].value) {
        var u :| u in s.threads && PendingAt(s.threads[u], k);
        assert u != t && n.threads[u] == s.threads[u];
      }
    }
  }

  /** What a Get finds in the cache fits the store: no write of its key is pending. */
  lemma HitFits(cfg: Config, s: Sys, t: nat, k: string)
    requires Orderly(cfg, s) && t in s.threads && s.threads[t] == Begin(OpGet(k)) && k in s.cache.items
    ensures Fits(s.table, k, s.cache.items[k].value)
  {
    if Pending(s, k) {
      var u :| u in s.threads && PendingAt(s.threads[u], k);
      Alone(s, t, u, k);
    }
  }

  lemma ListingFits(m: StoreSpec.Table, order: seq<string>)
    requires StoreSpec.Keyed(m) && StoreSpec.Enumerates(order, m)
    ensures forall k :: k in order ==> k in m
    ensures FitsAll(m, StoreSpec.Listing(m, order))
  {
    assert forall k :: k in order ==> k in Elements(order);
    ElementsSize(order);
    assert |m| == |m.Keys|;
    var fs := StoreSpec.Listing(m, order);
    forall i | 0 <= i < |fs| ensures Fits(m, fs[i].key, fs[i]) {
      assert order[i] in order;
    }
  }

  lemma BeginOrderly(cfg: Config, s: Sys, t: nat, op: Op, order: seq<string>)
    requires Orderly(cfg, s) && t in s.threads && s.threads[t] == Begin(op)
    ensures Orderly(cfg, BeginOf(cfg, s, t, op, order))
  {
    hide NoClash, CacheFits;
    match op
    case OpGet(k) =>
      if k in s.cache.items { HitFits(cfg, s, t, k); }
      KeepCache(cfg, s, t, PcOf(BeginOf(cfg, s, t, op, order), t));
    case OpSet(f) =>
      if StoreSpec.SetError(f).Some? {
        KeepCache(cfg, s, t, Finished(op, Wrote(StoreSpec.SetError(f))));
      } else {
        ValidationMeaning(f.key);
        StoreSpec.SetKeyed(s.table, f, s.clock);
        WriteOrderly(cfg, s, t, f.key, StoreSpec.Set(s.table, f, s.clock), Publish(f));
      }
    case OpDelete(k) =>
      if StoreSpec.DeleteError(s.table, k).Some? {
        KeepCache(cfg, s, t, Finished(op, Wrote(StoreSpec.DeleteError(s.table, k))));
      } else {
        assert ValidKey(k);
        WriteOrderly(cfg, s, t, k, StoreSpec.Delete(s.table, k), Unpublish(k));
      }
    case OpGetAll =>
      if StoreSpec.Enumerates(order, s.table) {
        ListingFits(s.table, order);
        KeepCache(cfg, s, t, Warm(StoreSpec.Listing(s.table, order), 0));
      }
  }

  lemma KeepCache(cfg: Config, s: Sys, t: nat, pc: Pc)
    requires Orderly(cfg, s) && t in s.threads && s.threads[t].Begin?
    requires OpOf(pc) == OpOf(s.threads[t]) && Settled(s.table, pc)
    ensures Orderly(cfg, Goto(s, t, pc))
  {
    var n := Goto(s, t, pc);
    forall k | k in s.cache.items ensures Fits(s.table, k, s.cache.items[k].value) || Pending(n, k) {
      if Pending(s, k) {
        var u :| u in s.threads && PendingAt(s.threads[u], k);
        assert u != t && n.threads[u] == s.threads[u];
      }
    }
  }

  /** New entries fit the store, and of the old ones none that t has pending is kept. */
  ghost predicate Admits(s: Sys, pc: Pc, cache: Lru<Flag>) {
    forall k :: k in cache.items ==>
      Fits(s.table, k, cache.items[k].value)
      || (k in s.cache.items && cache.items[k].value == s.cache.items[k].value && !PendingAt(pc, k))
  }

  lemma PutAdmits(cfg: Config, s: Sys, pc: Pc, k: string, f: Flag)
    requires Valid(cfg, s.cache) && Fits(s.table, k, f)
    requires forall j :: PendingAt(pc, j) ==> j == k
    ensures Valid(cfg, Put(cfg, s.cache, k, f, s.clock)) && Admits(s, pc, Put(cfg, s.cache, k, f, s.clock))
  {
    PutValid(cfg, s.cache, k, f, s.clock);
  }

  lemma RegionSettles(s: Sys, pc: Pc)
    requires Settled(s.table, pc) && !pc.Begin?
    ensures Settled(s.table, PcAfter(s, pc)) && OpOf(PcAfter(s, pc)) == OpOf(pc)
  {
  }

  lemma RegionAdmits(cfg: Config, s: Sys, pc: Pc)
    requires Valid(cfg, s.cache) && Settled(s.table, pc) && !pc.Begin?
    ensures Valid(cfg, CacheAfter(cfg, s, pc)) && Admits(s, pc, CacheAfter(cfg, s, pc))
  {
    match pc
    case Expiring(k) => ExpireValid(cfg, s.cache, k, s.clock);
    case Touching(k, item, _) => TouchValid(cfg, s.cache, k, item);
    case Fill(k, f) => PutAdmits(cfg, s, pc, k, f);
    case Publish(f) => PutAdmits(cfg, s, pc, f.key, f);
    case Unpublish(k) => DeleteValid(cfg, s.cache, k);
    case Warm(fs, i) => if i < |fs| { PutAdmits(cfg, s, pc, fs[i].key, fs[i]); }
    case _ =>
  }

  lemma ActOrderly(cfg: Config, s: Sys, t: nat, order: seq<string>)
    requires Orderly(cfg, s) && t in s.threads
    ensures Orderly(cfg, ActOf(cfg, s, t, order))
  {
    hide Settled, CacheAfter, PcAfter;
    match s.threads[t]
    case Begin(op) => BeginOrderly(cfg, s, t, op, order);
    case pc =>
      RegionAdmits(cfg, s, pc);
      RegionSettles(s, pc);
      RegionOrderly(cfg, s, t, CacheAfter(cfg, s, pc), PcAfter(s, pc));
  }

  lemma NextOrderly(cfg: Config, s: Sys, step: Step)
    requires Orderly(cfg, s) && Allowed(s, step)
    ensures Orderly(cfg, Next(cfg, s, step))
  {
    match step
    case Act(t, order) => if t in s.threads { ActOrderly(cfg, s, t, order); } else { RestOrderly(cfg, s, t, Idle); }
    case Invoke(t, op) => if PcOf(s, t).Idle? { RestOrderly(cfg, s, t, Begin(op)); }
    case Return(t) => if PcOf(s, t).Finished? { RestOrderly(cfg, s, t, Idle); }
    case Tick(d) => assert forall k :: Pending(s, k) ==> Pending(s.(clock := s.clock + d), k);
    case Cleanup =>
      var n := Next(cfg, s, step);
      RemoveValid(cfg, s.cache, StaleKeys(cfg, s.cache, s.clock));
      assert forall k :: Pending(s, k) ==> Pending(n, k);
  }

  /** A thread that has nothing pending starts or rests. */
  lemma RestOrderly(cfg: Config, s: Sys, t: nat, pc: Pc)
    requires Orderly(cfg, s) && (PcOf(s, t).Idle? || PcOf(s, t).Finished?) && (pc.Idle? || pc.Begin?)
    requires pc.Begin? ==> PcOf(s, t).Idle? && Allowed(s, Invoke(t, pc.op))
    ensures Orderly(cfg, Goto(s, t, pc))
  {
    var n := Goto(s, t, pc);
    forall k | k in s.cache.items ensures Fits(s.table, k, s.cache.items[k].value) || Pending(n, k) {
      if Pending(s, k) {
        var u :| u in s.threads && PendingAt(s.threads[u], k);
        assert u != t && n.threads[u] == s.threads[u];
      }
    }
  }

  lemma {:induction false} RunOrderly(cfg: Config, table: StoreSpec.Table, clock: int, steps: seq<Step>)
    requires StoreSpec.Keyed(table) && Serialised(cfg, Start(table, clock), steps)
    ensures Orderly(cfg, Run(cfg, Start(table, clock), steps))
  {
    if steps != [] {
      RunOrderly(cfg, table, clock, steps[..|steps| - 1]);
      NextOrderly(cfg, Run(cfg, Start(table, clock), steps[..|steps| - 1]), steps[|steps| - 1]);
    }
  }

  /** In every run where no write of a key overlaps with another operation on that key: an entry of the
      cache has the store's content unless its own key is just being written; a Get and a GetAll return
      what the store holds at that moment, and a Get fails exactly as the store would. */
  lemma SerialisedCoherence(cfg: Config, table: StoreSpec.Table, clock: int, steps: seq<Step>, s: Sys)
    requires StoreSpec.Keyed(table) && Serialised(cfg, Start(table, clock), steps)
    requires s == Run(cfg, Start(table, clock), steps)
    ensures forall k :: k in s.cache.items && !Pending(s, k) ==> Fits(s.table, k, s.cache.items[k].value)
    ensures (forall k :: !Pending(s, k)) ==> Coherent(s.table, s.cache)
    ensures forall t :: t in s.threads && s.threads[t].Finished? ==>
              Truthful(s.table, s.threads[t].op, s.threads[t].outcome)
  {
    RunOrderly(cfg, table, clock, steps);
    forall t | t in s.threads ensures Settled(s.table, s.threads[t]) {}
  }

  lemma OneStep(cfg: Config, s: Sys, steps: seq<Step>, i: nat)
    requires i < |steps|
    ensures Run(cfg, s, steps[..i + 1]) == Next(cfg, Run(cfg, s, steps[..i]), steps[i])
  {
    assert steps[..i + 1][..i] == steps[..i];
  }

  /** The first three steps: a Get has read the flag from the store. */
  lemma SlowGetRead(cfg: Config, a1: Flag, a2: Flag)
    requires a1.key == "a"
    ensures var s0 := Start(map["a" := a1], 5);
      Run(cfg, s0, SlowGet(a2)[..3]) == s0.(threads := map[1 := Fill("a", a1)])
  {
    var steps, s0 := SlowGet(a2), Start(map["a" := a1], 5);
    OneStep(cfg, s0, steps, 0);
    OneStep(cfg, s0, steps, 1);
    OneStep(cfg, s0, steps, 2);
  }

  /** After two more, a Get has read the old flag, a Set has written the new one to the store. */
  lemma SlowGetBegin(cfg: Config, a1: Flag, a2: Flag)
    requires a1.key == a2.key == "a"
    ensures var s := Run(cfg, Start(map["a" := a1], 5), SlowGet(a2)[..5]);
      && s.cache == Empty() && s.threads == map[1 := Fill("a", a1), 2 := Publish(a2)]
      && s.table == StoreSpec.Set(map["a" := a1], a2, 5)
  {
    hide Run;
    var steps, s0 := SlowGet(a2), Start(map["a" := a1], 5);
    SlowGetRead(cfg, a1, a2);
    ValidationMeaning("a");
    OneStep(cfg, s0, steps, 3);
    OneStep(cfg, s0, steps, 4);
  }

  /** Without that discipline coherence fails: a Get that misses and is slow puts the old flag back
      after a Set has already updated store and cache, and later Gets return the old flag. */
  lemma SlowGetWitness(cfg: Config)
    requires cfg.ttl <= 0
    ensures var a1, a2 := Flag("a", false, "", 1, 1, None), Flag("a", true, "", 1, 1, None);
      var s := Run(cfg, Start(map["a" := a1], 5), SlowGet(a2));
      && "a" in s.table && s.table["a"].enabled
      && "a" in s.cache.items && !s.cache.items["a"].value.enabled
      && !Coherent(s.table, s.cache)
  {
    hide Next, Run;
    var a1, a2 := Flag("a", false, "", 1, 1, None), Flag("a", true, "", 1, 1, None);
    var steps, s0 := SlowGet(a2), Start(map["a" := a1], 5);
    ValidationMeaning("a");
    SlowGetBegin(cfg, a1, a2);
    OneStep(cfg, s0, steps, 5);
    OneStep(cfg, s0, steps, 6);
    assert steps[..7] == steps;
    hide Next, Run;
    SlowGetEnd(cfg, Run(cfg, s0, steps[..5]), a1, a2);
  }

  lemma SlowGetEnd(cfg: Config, s: Sys, a1: Flag, a2: Flag)
    requires s.cache == Empty() && s.threads == map[1 := Fill("a", a1), 2 := Publish(a2)] && a1.key == a2.key == "a"
    ensures var n := Next(cfg, Next(cfg, s, Act(2, [])), Act(1, []));
      n.table == s.table && "a" in n.cache.items && n.cache.items["a"].value == a1
  {
    hide Put;
    PutValid(cfg, s.cache, "a", a2, s.clock);
    var m := Next(cfg, s, Act(2, []));
    assert PcOf(m, 1) == Fill("a", a1) && m.table == s.table;
    PutValid(cfg, m.cache, "a", a1, m.clock);
  }

  function SlowGet(update: Flag): seq<Step> {
    [Invoke(1, OpGet("a")), Act(1, []), Act(1, []), Invoke(2, OpSet(update)), Act(2, []), Act(2, []), Act(1, [])]
  }
}
