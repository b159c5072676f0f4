/** SerialisedStore's discipline is exact: two operations can leave cache and store in disagreement if and
    only if they clash. */
module Overlap {
  import opened Prelude
  import opened Flags
  import opened LruSpec
  import opened Backend
  import opened ConcurrentStore
  import opened SerialisedStore
  import StoreSpec

  /** The only calls are a, by thread 1, and b, by thread 2; each may be made again and again. */
  ghost predicate OnlyCalls(steps: seq<Step>, a: Op, b: Op) {
    forall i :: 0 <= i < |steps| && steps[i].Invoke? ==>
      (steps[i].thread == 1 && steps[i].op == a) || (steps[i].thread == 2 && steps[i].op == b)
  }

  ghost predicate AtRest(s: Sys) {
    forall t :: t in s.threads ==> s.threads[t].Idle?
  }

  /** The steps leave everybody at rest and the cache in disagreement with the store. */
  ghost predicate BreaksWith(cfg: Config, a: Op, b: Op, table: StoreSpec.Table, clock: int, steps: seq<Step>) {
    var s := Run(cfg, Start(table, clock), steps);
    StoreSpec.Keyed(table) && OnlyCalls(steps, a, b) && AtRest(s) && !Coherent(s.table, s.cache)
  }

  ghost predicate Breaks(cfg: Config, a: Op, b: Op, clock: int) {
    exists table, steps :: BreaksWith(cfg, a, b, table, clock, steps)
  }

  /** A Get made now would hit in the cache what the store does not hold. */
  ghost predicate Misleads(cfg: Config, s: Sys) {
    exists k :: Lookup(cfg, s.cache, k, s.clock).Some? && !Fits(s.table, k, Lookup(cfg, s.cache, k, s.clock).value)
  }

  ghost predicate MisleadsWith(cfg: Config, a: Op, b: Op, table: StoreSpec.Table, clock: int, steps: seq<Step>) {
    BreaksWith(cfg, a, b, table, clock, steps) && Misleads(cfg, Run(cfg, Start(table, clock), steps))
  }

  ghost predicate Deceives(cfg: Config, a: Op, b: Op, clock: int) {
    exists table, steps :: MisleadsWith(cfg, a, b, table, clock, steps)
  }

  // ----- Operations that do not clash do no harm -----

  ghost predicate InFlight(s: Sys, a: Op, b: Op) {
    forall t :: t in s.threads && OpOf(s.threads[t]).Some? ==>
      (t == 1 && OpOf(s.threads[t]).value == a) || (t == 2 && OpOf(s.threads[t]).value == b)
  }

  lemma ClashSymmetric(a: Op, b: Op)
    ensures Clash(a, b) <==> Clash(b, a)
  {
  }

  lemma ActKeepsOp(cfg: Config, s: Sys, t: nat, order: seq<string>)
    ensures OpOf(PcOf(ActOf(cfg, s, t, order), t)) == OpOf(PcOf(s, t))
    ensures forall u :: u != t ==> PcOf(ActOf(cfg, s, t, order), u) == PcOf(s, u)
  {
  }

  lemma NextInFlight(cfg: Config, s: Sys, step: Step, a: Op, b: Op)
    requires InFlight(s, a, b) && OnlyCalls([step], a, b)
    ensures InFlight(Next(cfg, s, step), a, b)
  {
    var n := Next(cfg, s, step);
    assert step.Invoke? ==> [step][0].op == step.op;
    if step.Act? {
      ActKeepsOp(cfg, s, step.thread, step.order);
    }
    forall t | t in n.threads && OpOf(n.threads[t]).Some?
      ensures (t == 1 && OpOf(n.threads[t]).value == a) || (t == 2 && OpOf(n.threads[t]).value == b)
    {
      assert PcOf(n, t) == n.threads[t];
      assert !step.Invoke? ==> OpOf(PcOf(s, t)) == OpOf(n.threads[t]);
    }
  }

  lemma {:induction false} PairIsSerialised(cfg: Config, s: Sys, steps: seq<Step>, a: Op, b: Op)
    requires !Clash(a, b) && OnlyCalls(steps, a, b) && s.threads == map[]
    ensures Serialised(cfg, s, steps) && InFlight(Run(cfg, s, steps), a, b)
  {
    if steps != [] {
      var init, step := steps[..|steps| - 1], steps[|steps| - 1];
      PairIsSerialised(cfg, s, init, a, b);
      NextInFlight(cfg, Run(cfg, s, init), step, a, b);
      ClashSymmetric(a, b);
    }
  }

  lemma NoClashNoBreak(cfg: Config, a: Op, b: Op, table: StoreSpec.Table, clock: int, steps: seq<Step>)
    requires !Clash(a, b)
    ensures !BreaksWith(cfg, a, b, table, clock, steps)
  {
    if BreaksWith(cfg, a, b, table, clock, steps) {
      var s := Run(cfg, Start(table, clock), steps);
      PairIsSerialised(cfg, Start(table, clock), steps, a, b);
      SerialisedCoherence(cfg, table, clock, steps, s);
    }
  }

  // ----- Operations that clash can do harm -----

  /** What is left to do is to put c into the cache under k. */
  ghost predicate Carries(pc: Pc, k: string, c: Flag) {
    c.key == k && (pc == Fill(k, c) || pc == Publish(c) || pc == Warm([c], 0))
  }

  lemma RunOn(cfg: Config, s: Sys, steps: seq<Step>, more: seq<Step>)
    ensures Run(cfg, s, steps + more) == Run(cfg, Run(cfg, s, steps), more)
  {
    if more == [] {
      assert steps + more == steps;
    } else {
      var init := more[..|more| - 1];
      assert (steps + more)[..|steps + more| - 1] == steps + init;
      RunOn(cfg, s, steps, init);
    }
  }

  lemma Run2(cfg: Config, s: Sys, a: Step, b: Step)
    ensures Run(cfg, s, [a, b]) == Next(cfg, Next(cfg, s, a), b)
  {
    assert [a, b][..1] == [a] && [a][..0] == [];
    assert Run(cfg, s, [a]) == Next(cfg, s, a);
  }

  lemma Run3(cfg: Config, s: Sys, a: Step, b: Step, c: Step)
    ensures Run(cfg, s, [a, b, c]) == Next(cfg, Next(cfg, Next(cfg, s, a), b), c)
  {
    assert [a, b, c][..2] == [a, b];
    Run2(cfg, s, a, b);
  }

  lemma Run4(cfg: Config, s: Sys, a: Step, b: Step, c: Step, d: Step)
    ensures Run(cfg, s, [a, b, c, d]) == Next(cfg, Next(cfg, Next(cfg, Next(cfg, s, a), b), c), d)
  {
    assert [a, b, c, d][..3] == [a, b, c];
    Run3(cfg, s, a, b, c);
  }

  /** The flag that the slow operation will put into the cache, if it meets old in the store. */
  function Carried(slow: Op, before: Flag): Flag {
    if slow.OpSet? then slow.flag else before
  }

  function SlowSteps(x: nat, slow: Op, k: string): seq<Step> {
    if slow.OpGet? then [Invoke(x, slow), Act(x, []), Act(x, [])] else [Invoke(x, slow), Act(x, [k])]
  }

  lemma OneKeyOrder(k: string, f: Flag)
    ensures StoreSpec.Enumerates([k], map[k := f])
    ensures StoreSpec.Listing(map[k := f], [k]) == [f]
  {
    NoDupPairs([k]);
    assert Elements([k]) == {k};
  }

  lemma SlowBegins(cfg: Config, x: nat, slow: Op, k: string, before: Flag, clock: int)
    requires ValidKey(k) && before.key == k && UsesKey(slow, k) && !slow.OpDelete?
    ensures var s := Run(cfg, Start(map[k := before], clock), SlowSteps(x, slow, k));
      && s.cache == Empty() && s.threads.Keys == {x} && Carries(s.threads[x], k, Carried(slow, before))
      && s.table.Keys == {k} && StoreSpec.Keyed(s.table)
  {
    hide Put, AfterGet, Run, Next;
    var s0 := Start(map[k := before], clock);
    if slow.OpGet? {
      Run3(cfg, s0, Invoke(x, slow), Act(x, []), Act(x, []));
      GetBegins(cfg, s0, x, k, before);
    } else {
      Run2(cfg, s0, Invoke(x, slow), Act(x, [k]));
      OtherBegins(cfg, s0, x, slow, k, before);
    }
  }

  lemma GetBegins(cfg: Config, s: Sys, x: nat, k: string, before: Flag)
    requires s.cache == Empty() && s.threads == map[] && s.table == map[k := before] && ValidKey(k)
    ensures Next(cfg, Next(cfg, Next(cfg, s, Invoke(x, OpGet(k))), Act(x, [])), Act(x, []))
         == s.(threads := map[x := Fill(k, before)])
  {
  }

  lemma OtherBegins(cfg: Config, s: Sys, x: nat, slow: Op, k: string, before: Flag)
    requires s.cache == Empty() && s.threads == map[] && s.table == map[k := before] && before.key == k
    requires (slow.OpSet? && WritesKey(slow, k)) || slow.OpGetAll?
    ensures var n := Next(cfg, Next(cfg, s, Invoke(x, slow)), Act(x, [k]));
      && n.cache == Empty() && n.threads.Keys == {x} && Carries(n.threads[x], k, Carried(slow, before))
      && n.table.Keys == {k} && (ValidKey(k) ==> StoreSpec.Keyed(n.table))
  {
    ValidationMeaning(k);
    OneKeyOrder(k, before);
  }

  function FastSteps(y: nat, fast: Op): seq<Step> {
    [Invoke(y, fast), Act(y, []), Act(y, []), Return(y)]
  }

  lemma FastStores(cfg: Config, s: Sys, x: nat, y: nat, fast: Op, k: string)
    requires x != y && s.threads.Keys == {x} && s.table.Keys == {k} && WritesKey(fast, k)
    ensures var n := Next(cfg, Next(cfg, s, Invoke(y, fast)), Act(y, []));
      && n.threads == s.threads[y := if fast.OpSet? then Publish(fast.flag) else Unpublish(k)]
      && n.cache == s.cache && n.clock == s.clock
      && (if fast.OpSet? then k in n.table && Content(n.table[k]) == Content(fast.flag) else k !in n.table)
  {
    ValidationMeaning(k);
  }

  lemma FastCaches(cfg: Config, s: Sys, y: nat)
    requires y in s.threads && (s.threads[y].Publish? || s.threads[y].Unpublish?) && Valid(cfg, s.cache)
    ensures var n := Next(cfg, Next(cfg, s, Act(y, [])), Return(y));
      n.threads == s.threads[y := Idle] && Valid(cfg, n.cache) && n.table == s.table
  {
    match s.threads[y]
    case Publish(f) => PutValid(cfg, s.cache, f.key, f, s.clock);
    case Unpublish(k) => DeleteValid(cfg, s.cache, k);
  }

  lemma FastRuns(cfg: Config, s: Sys, x: nat, y: nat, fast: Op, k: string)
    requires x != y && s.threads.Keys == {x} && s.cache == Empty() && s.table.Keys == {k}
    requires WritesKey(fast, k)
    ensures var n := Run(cfg, s, FastSteps(y, fast));
      && n.threads == s.threads[y := Idle] && Valid(cfg, n.cache)
      && (if fast.OpSet? then k in n.table && Content(n.table[k]) == Content(fast.flag) else k !in n.table)
  {
    hide Run, Next;
    Run4(cfg, s, Invoke(y, fast), Act(y, []), Act(y, []), Return(y));
    FastStores(cfg, s, x, y, fast, k);
    FastCaches(cfg, Next(cfg, Next(cfg, s, Invoke(y, fast)), Act(y, [])), y);
  }

  function SlowRest(x: nat): seq<Step> {
    [Act(x, []), Act(x, []), Return(x)]
  }

  lemma SlowPuts(cfg: Config, s: Sys, x: nat, k: string, c: Flag)
    requires x in s.threads && Carries(s.threads[x], k, c) && Valid(cfg, s.cache)
    ensures var n := Next(cfg, s, Act(x, []));
      && n.threads == s.threads[x := PcOf(n, x)] && (PcOf(n, x).Finished? || PcOf(n, x) == Warm([c], 1))
      && n.table == s.table && n.clock == s.clock && Lookup(cfg, n.cache, k, n.clock) == Some(c)
  {
    hide Put, Valid;
    PutValid(cfg, s.cache, k, c, s.clock);
  }

  lemma SlowReturns(cfg: Config, s: Sys, x: nat)
    requires PcOf(s, x).Finished? || (PcOf(s, x).Warm? && PcOf(s, x).done == |PcOf(s, x).flags|)
    ensures Next(cfg, Next(cfg, s, Act(x, [])), Return(x)) == Goto(s, x, Idle)
  {
  }

  lemma SlowEnds(cfg: Config, s: Sys, x: nat, k: string, c: Flag)
    requires x in s.threads && Carries(s.threads[x], k, c) && Valid(cfg, s.cache)
    ensures var n := Run(cfg, s, SlowRest(x));
      && n.threads == s.threads[x := Idle] && n.table == s.table
      && Lookup(cfg, n.cache, k, n.clock) == Some(c)
  {
    hide Run, Next;
    Run3(cfg, s, Act(x, []), Act(x, []), Return(x));
    SlowPuts(cfg, s, x, k, c);
    SlowReturns(cfg, Next(cfg, s, Act(x, [])), x);
  }

  function Schedule(x: nat, slow: Op, y: nat, fast: Op, k: string): seq<Step> {
    SlowSteps(x, slow, k) + FastSteps(y, fast) + SlowRest(x)
  }

  /** The slow operation overtakes nothing and is overtaken by the fast one. */
  lemma SlowAndFast(cfg: Config, x: nat, slow: Op, y: nat, fast: Op, k: string, before: Flag, clock: int)
    requires x != y && ValidKey(k) && before.key == k && UsesKey(slow, k) && !slow.OpDelete? && WritesKey(fast, k)
    requires fast.OpSet? ==> Content(Carried(slow, before)) != Content(fast.flag)
    ensures var s := Run(cfg, Start(map[k := before], clock), Schedule(x, slow, y, fast, k));
      AtRest(s) && !Coherent(s.table, s.cache) && Misleads(cfg, s)
  {
    hide Run, Next;
    var s0 := Start(map[k := before], clock);
    RunOn(cfg, s0, SlowSteps(x, slow, k), FastSteps(y, fast));
    RunOn(cfg, s0, SlowSteps(x, slow, k) + FastSteps(y, fast), SlowRest(x));
    SlowBegins(cfg, x, slow, k, before, clock);
    var s1 := Run(cfg, s0, SlowSteps(x, slow, k));
    FastRuns(cfg, s1, x, y, fast, k);
    SlowEnds(cfg, Run(cfg, s1, FastSteps(y, fast)), x, k, Carried(slow, before));
  }

  /** A flag for k that no Set of the two would store. */
  function Before(fast: Op, k: string): Flag {
    Flag(k, fast.OpSet? && !fast.flag.enabled, "", 0, 0, None)
  }

  lemma Harm(cfg: Config, slow: Op, fast: Op, k: string, clock: int, x: nat, y: nat)
    requires ValidKey(k) && UsesKey(slow, k) && !slow.OpDelete? && WritesKey(fast, k) && !Agree(slow, fast)
    requires (x == 1 && y == 2) || (x == 2 && y == 1)
    ensures if x == 1 then Deceives(cfg, slow, fast, clock) else Deceives(cfg, fast, slow, clock)
  {
    var before := Before(fast, k);
    var steps := Schedule(x, slow, y, fast, k);
    SlowAndFast(cfg, x, slow, y, fast, k, before, clock);
    if x == 1 {
      assert MisleadsWith(cfg, slow, fast, map[k := before], clock, steps);
    } else {
      assert MisleadsWith(cfg, fast, slow, map[k := before], clock, steps);
    }
  }

  /** Two operations clash exactly if, on some initial table, some schedule of the two ends at rest with a
      cache that disagrees with the store: whatever the size, the ttl and the time. And then there is such
      a schedule after which a Get answers with what the store does not hold. */
  lemma ClashIsExact(cfg: Config, a: Op, b: Op, clock: int)
    ensures Clash(a, b) <==> Breaks(cfg, a, b, clock)
    ensures Clash(a, b) <==> Deceives(cfg, a, b, clock)
  {
    hide BreaksWith;
    if Clash(a, b) {
      var k :| UsesKey(a, k) && UsesKey(b, k) && (WritesKey(a, k) || WritesKey(b, k));
      if WritesKey(b, k) && !a.OpDelete? {
        Harm(cfg, a, b, k, clock, 1, 2);
      } else {
        Harm(cfg, b, a, k, clock, 2, 1);
      }
      var table, steps :| MisleadsWith(cfg, a, b, table, clock, steps);
    } else {
      forall table, steps ensures !BreaksWith(cfg, a, b, table, clock, steps) {
        NoClashNoBreak(cfg, a, b, table, clock, steps);
      }
    }
  }
}
