/** What late calls do. Once the client is closed no new call reaches the cached store (CloseProtocol says
    which ones are still on their way); closing empties the store and leaves the cache. From then on the
    cached store runs on, with the calls in flight and no others. */
module LateCalls {
  import opened Prelude
  import opened Flags
  import opened LruSpec
  import opened ConcurrentStore
  import StoreSpec

  /** The in-memory store is closed; the cache keeps its items. */
  function Closing(s: Sys): Sys {
    Store(s, map[])
  }

  /** No new calls. */
  ghost predicate Late(steps: seq<Step>) {
    forall i :: 0 <= i < |steps| ==> !steps[i].Invoke?
  }

  /** A Set that has not reached the store yet brings content f under k. */
  predicate Brings(pc: Pc, k: string, f: Flag) {
    pc.Begin? && pc.op.OpSet? && ValidKey(k) && pc.op.flag.key == k && Content(pc.op.flag) == Content(f)
  }

  /** An operation that has left the store or the cache carries content f under k. */
  ghost predicate Carries(pc: Pc, k: string, f: Flag) {
    match pc
    case Touching(key, _, g) => key == k && Content(g) == Content(f)
    case Fill(key, g) => key == k && Content(g) == Content(f)
    case Publish(g) => g.key == k && Content(g) == Content(f)
    case Warm(gs, _) => exists i :: 0 <= i < |gs| && gs[i].key == k && Content(gs[i]) == Content(f)
    case _ => false
  }

  /** Content f can outlive the closing under k: the cache keeps it, or a call in flight has it. */
  ghost predicate Kept(s: Sys, k: string, f: Flag) {
    || (k in s.cache.items && Content(s.cache.items[k].value) == Content(f))
    || exists t :: t in s.threads && (Carries(s.threads[t], k, f) || Brings(s.threads[t], k, f))
  }

  ghost predicate Brought(s: Sys, k: string, f: Flag) {
    exists t :: t in s.threads && Brings(s.threads[t], k, f)
  }

  // ----- What every late step keeps -----

  ghost predicate HasKept(s: Sys, pc: Pc) {
    match pc
    case Touching(k, _, f) => Kept(s, k, f)
    case Fill(k, f) => Kept(s, k, f)
    case Publish(f) => Kept(s, f.key, f)
    case Warm(fs, _) => forall i :: 0 <= i < |fs| ==> Kept(s, fs[i].key, fs[i])
    case Finished(op, outcome) => (
      match outcome
      case Got(r) => r.Ok? ==> op.OpGet? && Kept(s, op.key, r.value)
      case Listed(fs) => forall i :: 0 <= i < |fs| ==> Kept(s, fs[i].key, fs[i])
      case Wrote(_) => true)
    case _ => true
  }

  /** The thread has what was kept, unless it was finished when the store was closed; and a call that has not
      begun is one that had not begun then. */
  ghost predicate ThreadOk(s: Sys, n: Sys, t: nat)
    requires t in n.threads
  {
    && (HasKept(s, n.threads[t]) || (n.threads[t].Finished? && PcOf(s, t) == n.threads[t]))
    && (n.threads[t].Begin? ==> PcOf(s, t) == n.threads[t])
  }

  /** n comes after the closing of s: its store has what late Sets brought, its cache has what was kept. */
  ghost predicate After(cfg: Config, s: Sys, n: Sys) {
    && Valid(cfg, n.cache) && StoreSpec.Keyed(n.table)
    && (forall k :: k in n.table ==> Brought(s, k, n.table[k]))
    && (forall k :: k in n.cache.items ==> Kept(s, k, n.cache.items[k].value))
    && (forall t :: t in n.threads ==> ThreadOk(s, n, t))
  }

  lemma ClosingAfter(cfg: Config, s: Sys)
    requires Valid(cfg, s.cache)
    ensures After(cfg, s, Closing(s))
  {
    forall t | t in s.threads ensures ThreadOk(s, Closing(s), t) {
      match s.threads[t]
      case Touching(k, _, f) => assert Carries(s.threads[t], k, f);
      case Fill(k, f) => assert Carries(s.threads[t], k, f);
      case Publish(f) => assert Carries(s.threads[t], f.key, f);
      case Warm(fs, _) =>
        forall i | 0 <= i < |fs| ensures Kept(s, fs[i].key, fs[i]) {
          assert Carries(s.threads[t], fs[i].key, fs[i]);
        }
      case _ =>
    }
  }

  lemma BroughtIsKept(s: Sys, k: string, f: Flag)
    requires Brought(s, k, f)
    ensures Kept(s, k, f)
  {
  }

  lemma CacheAfterKept(cfg: Config, s: Sys, n: Sys, pc: Pc)
    requires After(cfg, s, n) && HasKept(s, pc)
    ensures var c := CacheAfter(cfg, n, pc);
      Valid(cfg, c) && forall k :: k in c.items ==> Kept(s, k, c.items[k].value)
  {
    hide Kept, Put, Valid;
    match pc
    case Expiring(k) => ExpireValid(cfg, n.cache, k, n.clock);
    case Touching(k, item, _) => TouchValid(cfg, n.cache, k, item);
    case Fill(k, f) => PutValid(cfg, n.cache, k, f, n.clock);
    case Publish(f) => PutValid(cfg, n.cache, f.key, f, n.clock);
    case Unpublish(k) => DeleteValid(cfg, n.cache, k);
    case Warm(fs, i) => if i < |fs| { PutValid(cfg, n.cache, fs[i].key, fs[i], n.clock); }
    case _ =>
  }

  lemma PcAfterKept(cfg: Config, s: Sys, n: Sys, pc: Pc)
    requires After(cfg, s, n) && HasKept(s, pc) && !pc.Begin?
    ensures HasKept(s, PcAfter(n, pc)) && !PcAfter(n, pc).Begin?
  {
    hide Kept, Brought, Valid;
    if pc.Fetch? && pc.key in n.table {
      BroughtIsKept(s, pc.key, n.table[pc.key]);
    }
  }

  /** A thread's move, when the store stays as it is. */
  lemma MoveAfter(cfg: Config, s: Sys, n: Sys, t: nat, cache: Lru<Flag>, pc: Pc)
    requires After(cfg, s, n) && Valid(cfg, cache) && forall k :: k in cache.items ==> Kept(s, k, cache.items[k].value)
    requires HasKept(s, pc) && !pc.Begin?
    ensures After(cfg, s, Goto(n.(cache := cache), t, pc))
  {
    hide Kept, Brought, Valid;
    var m := Goto(n.(cache := cache), t, pc);
    forall u | u in m.threads ensures ThreadOk(s, m, u) {
      assert u != t ==> ThreadOk(s, n, u);
    }
  }

  lemma WriteAfter(cfg: Config, s: Sys, n: Sys, t: nat, table: StoreSpec.Table, pc: Pc)
    requires After(cfg, s, n) && StoreSpec.Keyed(table) && forall k :: k in table ==> Brought(s, k, table[k])
    requires HasKept(s, pc) && !pc.Begin?
    ensures After(cfg, s, Goto(Store(n, table), t, pc))
  {
    hide Kept, Brought, Valid;
    var m := Goto(Store(n, table), t, pc);
    forall u | u in m.threads ensures ThreadOk(s, m, u) {
      assert u != t ==> ThreadOk(s, n, u);
    }
  }

  lemma SetAfter(cfg: Config, s: Sys, n: Sys, t: nat, f: Flag)
    requires After(cfg, s, n) && t in n.threads && n.threads[t] == Begin(OpSet(f)) && StoreSpec.SetError(f).None?
    ensures After(cfg, s, Goto(Store(n, StoreSpec.Set(n.table, f, n.clock)), t, Publish(f)))
  {
    hide Valid;
    assert ThreadOk(s, n, t);
    ValidationMeaning(f.key);
    StoreSpec.SetKeyed(n.table, f, n.clock);
    var table := StoreSpec.Set(n.table, f, n.clock);
    assert Brings(s.threads[t], f.key, table[f.key]) && Brings(s.threads[t], f.key, f);
    forall k | k in table ensures Brought(s, k, table[k]) {
      assert k != f.key ==> table[k] == n.table[k];
    }
    WriteAfter(cfg, s, n, t, table, Publish(f));
  }

  lemma ListAfter(cfg: Config, s: Sys, n: Sys, order: seq<string>)
    requires After(cfg, s, n) && StoreSpec.Enumerates(order, n.table)
    ensures forall k :: k in order ==> k in n.table
    ensures HasKept(s, Warm(StoreSpec.Listing(n.table, order), 0))
  {
    hide Valid, Kept, Brought;
    assert forall k :: k in order ==> k in Elements(order);
    var fs := StoreSpec.Listing(n.table, order);
    forall i | 0 <= i < |fs| ensures Kept(s, fs[i].key, fs[i]) {
      assert order[i] in order;
      BroughtIsKept(s, order[i], fs[i]);
    }
  }

  lemma BeginAfter(cfg: Config, s: Sys, n: Sys, t: nat, op: Op, order: seq<string>)
    requires After(cfg, s, n) && t in n.threads && n.threads[t] == Begin(op)
    ensures After(cfg, s, BeginOf(cfg, n, t, op, order))
  {
    hide Kept, Brought, Valid, StoreSpec.Set, StoreSpec.SetError, StoreSpec.Enumerates;
    match op
    case OpGet(k) => MoveAfter(cfg, s, n, t, n.cache, PcOf(BeginOf(cfg, n, t, op, order), t));
    case OpSet(f) =>
      if StoreSpec.SetError(f).Some? {
        MoveAfter(cfg, s, n, t, n.cache, Finished(op, Wrote(StoreSpec.SetError(f))));
      } else {
        SetAfter(cfg, s, n, t, f);
      }
    case OpDelete(k) =>
      if StoreSpec.DeleteError(n.table, k).Some? {
        MoveAfter(cfg, s, n, t, n.cache, Finished(op, Wrote(StoreSpec.DeleteError(n.table, k))));
      } else {
        WriteAfter(cfg, s, n, t, StoreSpec.Delete(n.table, k), Unpublish(k));
      }
    case OpGetAll =>
      if StoreSpec.Enumerates(order, n.table) {
        ListAfter(cfg, s, n, order);
        MoveAfter(cfg, s, n, t, n.cache, Warm(StoreSpec.Listing(n.table, order), 0));
      }
  }

  lemma NextAfter(cfg: Config, s: Sys, n: Sys, step: Step)
    requires After(cfg, s, n) && !step.Invoke?
    ensures After(cfg, s, Next(cfg, n, step))
  {
    hide Kept, Brought, Valid, BeginOf, CacheAfter, PcAfter;
    match step
    case Act(t, order) => ActAfter(cfg, s, n, t, order);
    case Return(t) => if PcOf(n, t).Finished? { MoveAfter(cfg, s, n, t, n.cache, Idle); }
    case Tick(_) => SameAfter(cfg, s, n, Next(cfg, n, step));
    case Cleanup =>
      SweepAfter(cfg, s, n);
      SameAfter(cfg, s, n, Next(cfg, n, step));
  }

  lemma SweepAfter(cfg: Config, s: Sys, n: Sys)
    requires After(cfg, s, n)
    ensures var c := Sweep(cfg, n.cache, n.clock);
      Valid(cfg, c) && forall k :: k in c.items ==> Kept(s, k, c.items[k].value)
  {
    hide Kept, Brought;
    RemoveValid(cfg, n.cache, StaleKeys(cfg, n.cache, n.clock));
  }

  lemma SameAfter(cfg: Config, s: Sys, n: Sys, m: Sys)
    requires After(cfg, s, n) && m.table == n.table && m.threads == n.threads
    requires Valid(cfg, m.cache) && forall k :: k in m.cache.items ==> Kept(s, k, m.cache.items[k].value)
    ensures After(cfg, s, m)
  {
    hide Kept, Brought, Valid;
    forall t | t in m.threads ensures ThreadOk(s, m, t) {
      assert ThreadOk(s, n, t);
    }
  }

  lemma ActAfter(cfg: Config, s: Sys, n: Sys, t: nat, order: seq<string>)
    requires After(cfg, s, n)
    ensures After(cfg, s, ActOf(cfg, n, t, order))
  {
    hide Kept, Brought, Valid, BeginOf;
    var pc := PcOf(n, t);
    assert t in n.threads ==> ThreadOk(s, n, t);
    if pc.Begin? {
      BeginAfter(cfg, s, n, t, pc.op, order);
    } else if pc.Finished? {
      assert ActOf(cfg, n, t, order) == n;
    } else {
      CacheAfterKept(cfg, s, n, pc);
      PcAfterKept(cfg, s, n, pc);
      MoveAfter(cfg, s, n, t, CacheAfter(cfg, n, pc), PcAfter(n, pc));
    }
  }

  lemma {:induction false} RunAfter(cfg: Config, s: Sys, steps: seq<Step>)
    requires Valid(cfg, s.cache) && Late(steps)
    ensures After(cfg, s, Run(cfg, Closing(s), steps))
  {
    if steps == [] {
      ClosingAfter(cfg, s);
    } else {
      RunAfter(cfg, s, steps[..|steps| - 1]);
      NextAfter(cfg, s, Run(cfg, Closing(s), steps[..|steps| - 1]), steps[|steps| - 1]);
    }
  }

  // ----- What late calls return and leave behind -----

  /** A Get that was in flight when the store was closed, and finishes later, returns only what the cache kept
      or a call in flight had: nothing that was in the store alone. */
  lemma LateGetReturnsKept(cfg: Config, s: Sys, steps: seq<Step>, n: Sys, t: nat, k: string, f: Flag)
    requires Valid(cfg, s.cache) && Late(steps) && n == Run(cfg, Closing(s), steps)
    requires PcOf(n, t) == Finished(OpGet(k), Got(Ok(f))) && PcOf(s, t) != PcOf(n, t)
    ensures Kept(s, k, f)
  {
    hide Run, Kept;
    RunAfter(cfg, s, steps);
    assert ThreadOk(s, n, t);
  }

  /** And it does return an unexpired flag that the cache kept, although the store is empty. */
  lemma LateGetHits(cfg: Config, s: Sys, t: nat, k: string, f: Flag)
    requires PcOf(s, t) == Begin(OpGet(k)) && Lookup(cfg, s.cache, k, s.clock) == Some(f)
    ensures var n := Run(cfg, Closing(s), [Act(t, []), Act(t, [])]);
      PcOf(n, t) == Finished(OpGet(k), Got(Ok(f))) && n.table == map[]
  {
    var s0 := Closing(s);
    assert [Act(t, []), Act(t, [])][..1] == [Act(t, [])] && [Act(t, [])][..0] == [];
    assert Run(cfg, s0, [Act(t, [])]) == Next(cfg, s0, Act(t, []));
  }

  /** The closed store holds a key again, after some late run, exactly if a Set of that key had not reached
      the store when it was closed; it then holds that Set's content. */
  lemma LateSetStaysIff(cfg: Config, s: Sys, k: string, f: Flag)
    requires Valid(cfg, s.cache)
    ensures (exists steps :: LeavesBehind(cfg, s, steps, k, f)) <==> Brought(s, k, f)
  {
    hide Run, Brought;
    if Brought(s, k, f) {
      LateSetStays(cfg, s, k, f);
    }
    forall steps | LeavesBehind(cfg, s, steps, k, f) ensures Brought(s, k, f) {
      RunAfter(cfg, s, steps);
      SameContentBrought(s, k, Run(cfg, Closing(s), steps).table[k], f);
    }
  }

  /** After these late steps the store holds content f under k. */
  ghost predicate LeavesBehind(cfg: Config, s: Sys, steps: seq<Step>, k: string, f: Flag) {
    var n := Run(cfg, Closing(s), steps);
    Late(steps) && k in n.table && Content(n.table[k]) == Content(f)
  }

  lemma SameContentBrought(s: Sys, k: string, f: Flag, g: Flag)
    requires Brought(s, k, f) && Content(f) == Content(g)
    ensures Brought(s, k, g)
  {
    var t :| t in s.threads && Brings(s.threads[t], k, f);
    assert Brings(s.threads[t], k, g);
  }

  lemma LateSetStays(cfg: Config, s: Sys, k: string, f: Flag)
    requires Brought(s, k, f)
    ensures exists steps :: LeavesBehind(cfg, s, steps, k, f)
  {
    var t :| t in s.threads && Brings(s.threads[t], k, f);
    ValidationMeaning(k);
    var steps := [Act(t, [])];
    assert steps[..0] == [] && Run(cfg, Closing(s), steps) == Next(cfg, Closing(s), Act(t, []));
    assert LeavesBehind(cfg, s, steps, k, f);
  }
}
