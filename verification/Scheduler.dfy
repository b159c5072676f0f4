/** The step system of SplitGet, executed on the real cache objects: any schedule, with threads that
    carry item pointers across the gap between Get's two locks. */
module Scheduler {
  import opened Prelude
  import opened LruSpec
  import opened SplitGet
  import opened FlagCache
  import opened Metrics

  /** A thread's own state between locked regions; the pointer is what Go keeps in a local variable. */
  datatype Local<V> =
    | AtRest
    | AboutTo(op: Op<V>)
    | MustExpire(key: string)
    | MustTouch(key: string, flag: V, item: CacheItem<V>)
    | Finished(answer: Option<V>)

  /** The thread's local state is the one that SplitGet gives it. */
  ghost predicate Follows<V>(l: Local<V>, pc: Pc<V>, calls: seq<Call<V>>, issued: seq<CacheItem<V>>) {
    match pc
    case Idle => l.AtRest?
    case Called(c) => c < |calls| && l == AboutTo(calls[c].op)
    case Expiring(_, k) => l == MustExpire(k)
    case Touching(c, k, id) =>
      && c < |calls| && l.MustTouch? && l.key == k && l.item in issued && l.item.id == id
      && calls[c].answer == Some(l.flag)
    case Ready(c) => c < |calls| && l == Finished(calls[c].answer)
  }

  ghost predicate AllFollow<V>(locals: map<nat, Local<V>>, s: Sys<V>, issued: seq<CacheItem<V>>) {
    && locals.Keys == s.threads.Keys
    && forall t :: t in locals ==> Follows(locals[t], s.threads[t], s.calls, issued)
  }

  /** A region of thread t leaves every other thread's local state right. */
  lemma OthersFollow<V>(cfg: Config, locals: map<nat, Local<V>>, s: Sys<V>, t: nat, next: Local<V>,
                        issued: seq<CacheItem<V>>, issued': seq<CacheItem<V>>)
    requires Inv(cfg, s) && AllFollow(locals, s, issued) && t in locals && issued <= issued'
    requires var n := ActOf(cfg, s, t); Follows(next, PcOf(n, t), n.calls, issued')
    ensures AllFollow(locals[t := next], ActOf(cfg, s, t), issued')
  {
    hide Linearized, LruSpec.Valid, AfterOp, EventOf, PcAfter, Lookup, Expire, Touch;
    var n := ActOf(cfg, s, t);
    assert ThreadOk(s, t);
    assert n.threads.Keys == s.threads.Keys;
    forall u | u in locals && u != t ensures Follows(locals[u], n.threads[u], n.calls, issued') {
      assert ThreadOk(s, u);
    }
  }

  class Machine<V> {
    const cache: Cache<V>
    var clock: int
    var locals: map<nat, Local<V>>
    /** What the eviction counter showed at first. */
    ghost const before: int

    /** The machine is in the state that SplitGet calls s. */
    ghost predicate In(s: Sys<V>)
      reads this, cache, cache.Repr, cache.onEvict
    {
      && this !in cache.Repr
      && (cache.onEvict != null ==> cache.onEvict.count - before == s.cache.evicted)
      && cache.Valid()
      && Inv(cache.Cfg(), s)
      && s.cache == cache.model
      && s.clock == clock
      && AllFollow(locals, s, cache.issued)
    }

    /** With an eviction callback, as NewStoreWithMetrics sets one, or without. */
    constructor (maxSize: int, ttl: int, clock: int, onEvict: Counter?)
      ensures In(Start(clock)) && fresh(cache) && fresh(cache.Repr)
      ensures cache.Cfg() == Config(maxSize, ttl) && cache.onEvict == onEvict
      ensures onEvict != null ==> before == onEvict.count
    {
      cache := new Cache<V>(maxSize, ttl, onEvict);
      before := if onEvict == null then 0 else onEvict.count;
      this.clock := clock;
      locals := map[];
      new;
      RunKeeps<V>(cache.Cfg(), clock, []);
    }

    /** The first locked region of an operation, on the heap. */
    static method Begin(cache: Cache<V>, op: Op<V>, now: int) returns (next: Local<V>)
      requires cache.Valid()
      modifies cache.Repr, cache.Hooks()
      ensures cache.Counted() && cache.Valid()
      ensures fresh(cache.Repr - old(cache.Repr)) && old(cache.issued) <= cache.issued
      ensures cache.model == AfterOp(cache.Cfg(), old(cache.model), op, now)
      ensures match PcAfter(cache.Cfg(), old(cache.model), op, now, 0)
        case Expiring(_, k) => next == MustExpire(k)
        case Touching(_, k, id) => next.MustTouch? && next.key == k && next.item in cache.issued && next.item.id == id
          && Lookup(cache.Cfg(), old(cache.model), k, now) == Some(next.flag)
        case _ => next == Finished(None)
      ensures op.OpGet? && !next.MustTouch? ==> Lookup(cache.Cfg(), old(cache.model), op.key, now) == None
    {
      match op
      case OpGet(k) => {
        var seen := cache.ProbeLocked(k, now);
        match seen
        case Missing => next := Finished(None);
        case TimedOut => next := MustExpire(k);
        case Hit(flag, item) => next := MustTouch(k, flag, item);
      }
      case OpSet(k, v) => {
        cache.Set(k, v, now);
        next := Finished(None);
      }
      case OpDelete(k) => {
        cache.Delete(k);
        next := Finished(None);
      }
      case OpClear => {
        cache.Clear();
        next := Finished(None);
      }
      case OpCleanup => {
        cache.RemoveExpiredItems(now);
        next := Finished(None);
      }
    }

    /** The next locked region of thread t, on the heap. */
    static method Region(cache: Cache<V>, l: Local<V>, now: int, ghost s: Sys<V>, ghost t: nat) returns (next: Local<V>)
      requires cache.Valid() && s.cache == cache.model && s.clock == now
      requires Follows(l, PcOf(s, t), s.calls, cache.issued) && !l.AtRest? && !l.Finished?
      requires PcOf(s, t).call < |s.calls| && (l.MustExpire? ==> s.calls[PcOf(s, t).call].answer == None)
      modifies cache.Repr, cache.Hooks()
      ensures cache.Counted() && cache.Valid()
      ensures fresh(cache.Repr - old(cache.Repr)) && old(cache.issued) <= cache.issued
      ensures var n := ActOf(cache.Cfg(), s, t);
        cache.model == n.cache && Follows(next, PcOf(n, t), n.calls, cache.issued)
    {
      hide Cache.Valid;
      match l
      case AboutTo(op) => next := Begin(cache, op, now);
      case MustExpire(key) => {
        cache.ExpireLocked(key, now);
        next := Finished(None);
      }
      case MustTouch(key, flag, item) => {
        cache.TouchLocked(key, item);
        next := Finished(Some(flag));
      }
    }

    method Invoke(t: nat, op: Op<V>, ghost s: Sys<V>)
      requires In(s)
      modifies this
      ensures In(Next(cache.Cfg(), s, SplitGet.Invoke(t, op)))
    {
      hide Cache.Valid, Inv;
      NextKeeps(cache.Cfg(), s, SplitGet.Invoke(t, op));
      if t !in locals || locals[t].AtRest? {
        locals := locals[t := AboutTo(op)];
      }
    }

    method Return(t: nat, ghost s: Sys<V>) returns (answer: Option<Option<V>>)
      requires In(s)
      modifies this
      ensures In(Next(cache.Cfg(), s, SplitGet.Return(t)))
      ensures match PcOf(s, t)
        case Ready(c) => c < |s.calls| && answer == Some(s.calls[c].answer)
        case _ => answer == None
    {
      hide Cache.Valid, Inv;
      NextKeeps(cache.Cfg(), s, SplitGet.Return(t));
      answer := None;
      if t in locals && locals[t].Finished? {
        answer := Some(locals[t].answer);
        locals := locals[t := AtRest];
      }
    }

    method Act(t: nat, ghost s: Sys<V>)
      requires In(s)
      modifies this, cache.Repr, cache.Hooks()
      ensures fresh(cache.Repr - old(cache.Repr))
      ensures In(Next(cache.Cfg(), s, SplitGet.Act(t)))
    {
      if t in locals && !locals[t].AtRest? && !locals[t].Finished? {
        NextKeeps(cache.Cfg(), s, SplitGet.Act(t));
        assert ThreadOk(s, t) && Follows(locals[t], PcOf(s, t), s.calls, cache.issued);
        ghost var issued := cache.issued;
        var next := Region(cache, locals[t], clock, s, t);
        OthersFollow(cache.Cfg(), locals, s, t, next, issued, cache.issued);
        locals := locals[t := next];
      }
    }

    method Tick(d: nat, ghost s: Sys<V>)
      requires In(s)
      modifies this
      ensures In(Next(cache.Cfg(), s, SplitGet.Tick(d)))
    {
      hide Cache.Valid, Inv;
      NextKeeps(cache.Cfg(), s, SplitGet.Tick(d));
      clock := clock + d;
    }

    /** Any schedule on the heap keeps map and list in step, and does what SplitGet.Run says. */
    method Execute(schedule: seq<Step<V>>)
      requires In(Start(clock))
      modifies this, cache.Repr, cache.Hooks()
      ensures cache.Valid() && cache.Counted()
      ensures In(SplitGet.Run(cache.Cfg(), Start(old(clock)), schedule))
    {
      ghost var s := Start<V>(clock);
      for i := 0 to |schedule|
        invariant In(s) && fresh(cache.Repr - old(cache.Repr))
        invariant s == SplitGet.Run(cache.Cfg(), Start(old(clock)), schedule[..i])
      {
        assert schedule[..i + 1][..i] == schedule[..i];
        hide Cache.Valid, Inv;
        match schedule[i] {
          case Invoke(t, op) => Invoke(t, op, s);
          case Act(t) => Act(t, s);
          case Return(t) => var answer := Return(t, s);
          case Tick(d) => Tick(d, s);
        }
        s := Next(cache.Cfg(), s, schedule[i]);
      }
      assert schedule[..|schedule|] == schedule;
    }
  }
}
