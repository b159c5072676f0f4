/** The cache used by one caller at a time. Its Get is the two locked regions of SplitGet with nothing in
    between, and so the recency results hold of every sequence of operations, at any readings of the clock. */
module Sequential {
  import opened Prelude
  import opened LruSpec
  import opened SplitGet
  import opened Recency
  import opened Inclusion

  // ----- One Get is two regions -----

  function AloneSteps<V>(t: nat, k: string, d: nat): seq<Step<V>> {
    [Invoke(t, OpGet(k)), Act(t), Tick(d), Act(t)]
  }

  lemma RunAlone<V>(cfg: Config, s: Sys<V>, t: nat, k: string, d: nat)
    ensures Run(cfg, s, AloneSteps(t, k, d))
         == Next(cfg, Next(cfg, Next(cfg, Next(cfg, s, Invoke(t, OpGet(k))), Act(t)), Tick(d)), Act(t))
  {
    var steps := AloneSteps<V>(t, k, d);
    assert steps[..3][..2] == steps[..2] && steps[..2][..1] == steps[..1] && steps[..1][..0] == [];
    assert Run(cfg, s, steps[..1]) == Next(cfg, s, steps[0]);
    assert Run(cfg, s, steps[..2]) == Next(cfg, Run(cfg, s, steps[..1]), steps[1]);
    assert Run(cfg, s, steps[..3]) == Next(cfg, Run(cfg, s, steps[..2]), steps[2]);
  }

  /** A Get of an idle thread, with d passing between its probe and its second region and nobody else
      running: it leaves the cache as AfterGet says, answers with what Lookup says, and a hit is the latest
      touch of all. */
  lemma GetIsTwoRegions<V>(cfg: Config, s: Sys<V>, t: nat, k: string, d: nat)
    requires PcOf(s, t).Idle?
    ensures var n := Run(cfg, s, AloneSteps(t, k, d));
      && n.cache == AfterGet(cfg, s.cache, k, s.clock, s.clock + d)
      && PcOf(n, t) == Ready(|s.calls|) && |n.calls| == |s.calls| + 1
      && n.calls[|s.calls|].answer == Lookup(cfg, s.cache, k, s.clock)
      && (Lookup(cfg, s.cache, k, s.clock).Some? ==> |n.log| > 0 && LastTouch(n.log, k) == |n.log| - 1)
  {
    hide Run;
    RunAlone(cfg, s, t, k, d);
  }

  // ----- Runs of operations -----

  /** What operation op does to a cache, as an event. */
  ghost function EventOfTimed<V>(cfg: Config, s: Lru<V>, op: Timed<V>): Event<V> {
    match op
    case TSet(k, v, now) => EventOf(cfg, s, OpSet(k, v), now)
    case TGet(k, t1, _) => if Lookup(cfg, s, k, t1).Some? then Touched(k) else Looked(k, t1, None)
    case TDelete(k) => Removed(k)
    case TClear => Emptied
    case TCleanup(now) => EventOf(cfg, s, OpCleanup, now)
  }

  /** One event for each operation. */
  ghost function LogOf<V>(cfg: Config, ops: seq<Timed<V>>): (log: seq<Logged<V>>)
    ensures |log| == |ops|
  {
    if ops == [] then []
    else
      var init := ops[..|ops| - 1];
      LogOf(cfg, init) + [Logged(EventOfTimed(cfg, DoAll(cfg, init), ops[|ops| - 1]), None)]
  }

  /** Operation i sets k, or gets it and hits. */
  ghost predicate TouchesAt<V>(cfg: Config, ops: seq<Timed<V>>, i: nat, k: string)
    requires i < |ops|
  {
    match ops[i]
    case TSet(key, _, _) => key == k
    case TGet(key, t1, _) => key == k && Lookup(cfg, DoAll(cfg, ops[..i]), k, t1).Some?
    case _ => false
  }

  /** LastTouch of the log is the last operation that sets or hits the key. */
  lemma {:induction false} LogTouches<V>(cfg: Config, ops: seq<Timed<V>>, i: nat, k: string)
    requires i < |ops|
    ensures Touches(LogOf(cfg, ops)[i].event, k) <==> TouchesAt(cfg, ops, i, k)
  {
    var init := ops[..|ops| - 1];
    if i < |init| {
      assert init[..i] == ops[..i];
      LogTouches(cfg, init, i, k);
    }
  }

  lemma GetKeepsOrder<V>(cfg: Config, s: Lru<V>, log: seq<Logged<V>>, k: string, t1: int, t2: int)
    requires Valid(cfg, s) && Descending(log, s.order)
    ensures Descending(log + [Logged(EventOfTimed(cfg, s, TGet(k, t1, t2)), None)], AfterGet(cfg, s, k, t1, t2).order)
  {
    var e := Logged(EventOfTimed(cfg, s, TGet(k, t1, t2)), None);
    if Lookup(cfg, s, k, t1).Some? {
      DescendingFront(log, e, s.order, k);
    } else {
      DescendingLater(log, e, s.order);
      DescendingDrop(log + [e], s.order, {k});
    }
  }

  lemma DoKeepsOrder<V>(cfg: Config, s: Lru<V>, log: seq<Logged<V>>, op: Timed<V>)
    requires Valid(cfg, s) && Descending(log, s.order)
    ensures Descending(log + [Logged(EventOfTimed(cfg, s, op), None)], Do(cfg, s, op).order)
  {
    var e := Logged(EventOfTimed(cfg, s, op), None);
    match op
    case TSet(k, v, now) => OpKeepsOrder(cfg, s, OpSet(k, v), now, log, e);
    case TGet(k, t1, t2) => GetKeepsOrder(cfg, s, log, k, t1, t2);
    case TDelete(k) => OpKeepsOrder(cfg, s, OpDelete(k), 0, log, e);
    case TClear =>
    case TCleanup(now) => OpKeepsOrder(cfg, s, OpCleanup, now, log, e);
  }

  /** After any operations the list is strictly descending in last touch: in the last Set or hit. */
  lemma {:induction false} DoAllIsDescending<V>(cfg: Config, ops: seq<Timed<V>>)
    ensures Valid(cfg, DoAll(cfg, ops)) && Descending(LogOf(cfg, ops), DoAll(cfg, ops).order)
  {
    hide Descending, EventOfTimed, Do;
    if ops == [] {
      EmptyIsDescending<V>();
      EmptyIsValid<V>(cfg);
    } else {
      var init, op := ops[..|ops| - 1], ops[|ops| - 1];
      DoAllIsDescending(cfg, init);
      DoKeepsOrder(cfg, DoAll(cfg, init), LogOf(cfg, init), op);
      DoValid(cfg, DoAll(cfg, init), op);
    }
  }

  lemma EmptyIsDescending<V>()
    ensures Descending<V>([], [])
  {
  }

  lemma EmptyIsValid<V>(cfg: Config)
    ensures Valid<V>(cfg, Empty())
  {
  }

  /** So what a Set pushes out was set or hit before every other key that was there. */
  lemma SequentialVictim<V>(cfg: Config, ops: seq<Timed<V>>, s: Lru<V>, k: string, v: V, now: int, x: string,
                            other: string)
    requires s == DoAll(cfg, ops) && x in s.items && x !in Put(cfg, s, k, v, now).items
    requires other in s.items && other != x
    ensures LastTouch(LogOf(cfg, ops), x) < LastTouch(LogOf(cfg, ops), other)
  {
    hide Put, DoAll, LogOf, LastTouch, Descending;
    DoAllIsDescending(cfg, ops);
    VictimIsLast(cfg, s, k, v, now, x, other);
    var i :| 0 <= i < |s.order| - 1 && s.order[i] == other;
    DescendingAt(LogOf(cfg, ops), s.order, i, |s.order| - 1);
  }

  // ----- Exactly the most recently touched keys -----

  ghost predicate OnlyReadsAndSets<V>(ops: seq<Timed<V>>) {
    forall i :: 0 <= i < |ops| ==> ops[i].TSet? || ops[i].TGet? || ops[i].TCleanup?
  }

  lemma DoKeepsTop<V>(cfg: Config, s: Lru<V>, log: seq<Logged<V>>, op: Timed<V>)
    requires cfg.ttl <= 0 && Valid(cfg, s) && s.order == Top(cfg, Stack(log)) && !op.TDelete? && !op.TClear?
    ensures Do(cfg, s, op).order == Top(cfg, Stack(log + [Logged(EventOfTimed(cfg, s, op), None)]))
  {
    hide Top, Put;
    var e := Logged(EventOfTimed(cfg, s, op), None);
    assert (log + [e])[..|log|] == log;
    StackOk(log);
    match op
    case TSet(k, v, now) => OpKeepsTop(cfg, s, OpSet(k, v), now, log, e);
    case TGet(k, _, _) => TopToFront(cfg, Stack(log), k);
    case TCleanup(now) => OpKeepsTop(cfg, s, OpCleanup, now, log, e);
  }

  lemma {:induction false} DoAllHoldsTop<V>(cfg: Config, ops: seq<Timed<V>>)
    requires cfg.ttl <= 0 && OnlyReadsAndSets(ops)
    ensures DoAll(cfg, ops).order == Top(cfg, Stack(LogOf(cfg, ops)))
  {
    hide EventOfTimed, Do;
    if ops != [] {
      var init, op := ops[..|ops| - 1], ops[|ops| - 1];
      DoAllIsDescending(cfg, init);
      DoAllHoldsTop(cfg, init);
      DoKeepsTop(cfg, DoAll(cfg, init), LogOf(cfg, init), op);
    }
  }

  /** With expiry off and no Delete or Clear, a key is resident exactly if it was ever set or hit and fewer
      than maxSize distinct keys were set or hit after that. */
  lemma SequentialMostRecent<V>(cfg: Config, ops: seq<Timed<V>>, s: Lru<V>, k: string)
    requires cfg.ttl <= 0 && OnlyReadsAndSets(ops) && s == DoAll(cfg, ops)
    ensures k in s.items <==>
              LastTouch(LogOf(cfg, ops), k) >= 0 && (cfg.maxSize > 0 ==> |Newer(LogOf(cfg, ops), k)| < cfg.maxSize)
  {
    hide DoAll, LogOf, LastTouch;
    DoAllIsDescending(cfg, ops);
    DoAllHoldsTop(cfg, ops);
    TopMembers(cfg, LogOf(cfg, ops), k);
  }
}
