/** The collector's counters under any interleaving. A run of ConcurrentStore is watched by a history that
    moves the counters at the steps at which the code does, and counts the calls by kind. */
module Counting {
  import opened Flags
  import opened LruSpec
  import opened ConcurrentStore
  import StoreSpec

  /** gets: Gets invoked; direct: Sets, Deletes and GetAlls invoked. */
  datatype Counted = Counted(s: Sys, hits: nat, misses: nat, storageOperations: nat, gets: nat, direct: nat)

  function Begun(table: StoreSpec.Table, clock: int): Counted {
    Counted(ConcurrentStore.Start(table, clock), 0, 0, 0, 0, 0)
  }

  /** In the middle of cache.Get: neither hit nor miss yet. */
  predicate Probing(pc: Pc) {
    pc.Expiring? || pc.Touching? || (pc.Begin? && pc.op.OpGet?)
  }

  /** About to call the store. */
  predicate Calling(pc: Pc) {
    pc.Fetch? || (pc.Begin? && !pc.op.OpGet?)
  }

  function One(b: bool): nat {
    if b then 1 else 0
  }

  /** A hit counts when cache.Get is through with it, a miss when it is given up on, and a call of the store
      when it has been made. */
  ghost function CountNext(cfg: Config, c: Counted, step: Step): Counted {
    var n := Next(cfg, c.s, step);
    match step
    case Invoke(t, op) =>
      var idle := PcOf(c.s, t).Idle?;
      c.(s := n, gets := c.gets + One(idle && op.OpGet?), direct := c.direct + One(idle && !op.OpGet?))
    case Act(t, _) =>
      var p, q := PcOf(c.s, t), PcOf(n, t);
      c.(s := n, hits := c.hits + Hits(p), misses := c.misses + Misses(p, q),
         storageOperations := c.storageOperations + Stores(p, q))
    case _ => c.(s := n)
  }

  function Hits(p: Pc): nat {
    One(p.Touching?)
  }

  function Misses(p: Pc, q: Pc): nat {
    One(!p.Fetch? && q.Fetch?)
  }

  function Stores(p: Pc, q: Pc): nat {
    One(Calling(p) && !Calling(q))
  }

  ghost function CountRun(cfg: Config, c: Counted, steps: seq<Step>): Counted {
    if steps == [] then c else CountNext(cfg, CountRun(cfg, c, steps[..|steps| - 1]), steps[|steps| - 1])
  }

  /** Counting changes nothing. */
  lemma {:induction false} CountRunIsRun(cfg: Config, c: Counted, steps: seq<Step>)
    ensures CountRun(cfg, c, steps).s == Run(cfg, c.s, steps)
  {
    if steps != [] {
      CountRunIsRun(cfg, c, steps[..|steps| - 1]);
    }
  }

  // ----- The invariant -----

  /** The threads in the middle of cache.Get, or those about to call the store. */
  ghost function Group(s: Sys, probing: bool): set<nat> {
    set t | t in s.threads && In(s.threads[t], probing)
  }

  predicate In(pc: Pc, probing: bool) {
    if probing then Probing(pc) else Calling(pc)
  }

  ghost predicate Balanced(cfg: Config, c: Counted) {
    && Valid(cfg, c.s.cache)
    && c.s.cache.issued == |c.s.cache.items| + c.s.cache.evicted
    && c.gets == c.hits + c.misses + |Group(c.s, true)|
    && c.misses + c.direct == c.storageOperations + |Group(c.s, false)|
  }

  /** One thread moves from p to q. */
  lemma GroupMoves(s: Sys, n: Sys, t: nat, probing: bool)
    requires n.threads == s.threads[t := PcOf(n, t)]
    ensures |Group(n, probing)| + One(In(PcOf(s, t), probing)) == |Group(s, probing)| + One(In(PcOf(n, t), probing))
  {
    var before, after := Group(s, probing), Group(n, probing);
    assert after - {t} == before - {t};
    assert t in before <==> In(PcOf(s, t), probing);
    assert t in after <==> In(PcOf(n, t), probing);
    SizeWithout(before, t);
    SizeWithout(after, t);
  }

  lemma SizeWithout(ts: set<nat>, t: nat)
    ensures |ts| == |ts - {t}| + One(t in ts)
  {
    if t in ts {
      assert ts == (ts - {t}) + {t};
    } else {
      assert ts == ts - {t};
    }
  }

  lemma ActMoves(cfg: Config, s: Sys, t: nat, order: seq<string>)
    ensures var n := ActOf(cfg, s, t, order);
      var p, q := PcOf(s, t), PcOf(n, t);
      && n.threads == s.threads[t := q]
      && One(Probing(p)) == One(Probing(q)) + Hits(p) + Misses(p, q)
      && One(Calling(p)) + Misses(p, q) == One(Calling(q)) + Stores(p, q)
  {
  }

  /** Entries come from nowhere but issued items, and go nowhere unrecorded. */
  ghost predicate Conserved(cfg: Config, c: Lru<Flag>) {
    Valid(cfg, c) && c.issued == |c.items| + c.evicted
  }

  lemma CacheConserves(cfg: Config, s: Sys, pc: Pc)
    requires Conserved(cfg, s.cache)
    ensures Conserved(cfg, CacheAfter(cfg, s, pc))
  {
    hide Put, Valid;
    match pc
    case Expiring(k) => DeleteValid(cfg, s.cache, k);
    case Touching(k, item, _) => TouchValid(cfg, s.cache, k, item);
    case Fill(k, f) => PutValid(cfg, s.cache, k, f, s.clock);
    case Publish(f) => PutValid(cfg, s.cache, f.key, f, s.clock);
    case Unpublish(k) => DeleteValid(cfg, s.cache, k);
    case Warm(fs, i) => if i < |fs| { PutValid(cfg, s.cache, fs[i].key, fs[i], s.clock); }
    case _ =>
  }

  lemma NextConserves(cfg: Config, s: Sys, step: Step)
    requires Conserved(cfg, s.cache)
    ensures Conserved(cfg, Next(cfg, s, step).cache)
  {
    hide CacheAfter, Conserved, PcAfter;
    match step
    case Act(t, order) => CacheConserves(cfg, s, PcOf(s, t));
    case Cleanup => SweepConserves(cfg, s.cache, s.clock);
    case _ =>
  }

  lemma SweepConserves(cfg: Config, c: Lru<Flag>, now: int)
    requires Conserved(cfg, c)
    ensures Conserved(cfg, Sweep(cfg, c, now))
  {
    RemoveValid(cfg, c, StaleKeys(cfg, c, now));
  }

  lemma CountNextKeeps(cfg: Config, c: Counted, step: Step)
    requires Balanced(cfg, c)
    ensures Balanced(cfg, CountNext(cfg, c, step))
  {
    hide Valid, Group, ActOf;
    var n := Next(cfg, c.s, step);
    NextConserves(cfg, c.s, step);
    match step
    case Invoke(t, op) =>
      if PcOf(c.s, t).Idle? {
        GroupMoves(c.s, n, t, true);
        GroupMoves(c.s, n, t, false);
      }
    case Act(t, order) =>
      ActMoves(cfg, c.s, t, order);
      GroupMoves(c.s, n, t, true);
      GroupMoves(c.s, n, t, false);
    case Return(t) =>
      if PcOf(c.s, t).Finished? {
        GroupMoves(c.s, n, t, true);
        GroupMoves(c.s, n, t, false);
      }
    case Tick(_) => SameGroups(c.s, n);
    case Cleanup => SameGroups(c.s, n);
  }

  lemma SameGroups(s: Sys, n: Sys)
    requires n.threads == s.threads
    ensures Group(n, true) == Group(s, true) && Group(n, false) == Group(s, false)
  {
  }

  lemma {:induction false} AlwaysBalanced(cfg: Config, table: StoreSpec.Table, clock: int, steps: seq<Step>)
    ensures Balanced(cfg, CountRun(cfg, Begun(table, clock), steps))
  {
    if steps == [] {
      assert Group(ConcurrentStore.Start(table, clock), true) == {};
      assert Group(ConcurrentStore.Start(table, clock), false) == {};
    } else {
      AlwaysBalanced(cfg, table, clock, steps[..|steps| - 1]);
      CountNextKeeps(cfg, CountRun(cfg, Begun(table, clock), steps[..|steps| - 1]), steps[|steps| - 1]);
    }
  }

  /** Conservation under any interleaving: items made for new keys = size + evictions; Gets invoked = hits +
      misses + Gets still probing; calls of the store made and about to be made = misses, Sets, Deletes and
      GetAlls. */
  lemma ConcurrentConservation(cfg: Config, table: StoreSpec.Table, clock: int, steps: seq<Step>, c: Counted)
    requires c == CountRun(cfg, Begun(table, clock), steps)
    ensures c.s.cache.issued == |c.s.cache.items| + c.s.cache.evicted
    ensures c.gets == c.hits + c.misses + |Group(c.s, true)|
    ensures c.misses + c.direct == c.storageOperations + |Group(c.s, false)|
  {
    AlwaysBalanced(cfg, table, clock, steps);
  }

  /** So when every call has returned the sequential equations hold. */
  lemma ConservationAtRest(cfg: Config, table: StoreSpec.Table, clock: int, steps: seq<Step>, c: Counted)
    requires c == CountRun(cfg, Begun(table, clock), steps) && forall t :: t in c.s.threads ==> c.s.threads[t].Idle?
    ensures c.gets == c.hits + c.misses && c.storageOperations == c.misses + c.direct
  {
    AlwaysBalanced(cfg, table, clock, steps);
    assert Group(c.s, true) == {} && Group(c.s, false) == {};
  }
}
