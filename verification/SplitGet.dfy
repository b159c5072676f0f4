/** Any number of threads calling the cache at once. Every locked region of cache.go is one step, so a
    Get is two steps (probe, then touch or expire) with anything in between.

    The history (`log`, `calls`) is bookkeeping for the statements only: no step reads it. */
module SplitGet {
  import opened Prelude
  import opened LruSpec

  datatype Op<V> = OpGet(key: string) | OpSet(key: string, value: V) | OpDelete(key: string) | OpClear | OpCleanup

  /** Where a thread is; call is its number in `calls`. */
  datatype Pc<V> =
    | Idle
    | Called(call: nat)
    | Expiring(call: nat, key: string)
    | Touching(call: nat, key: string, item: nat)
    | Ready(call: nat)

  /** What happened to the cache, in the order of the lock regions. */
  datatype Event<V> =
    | Looked(key: string, now: int, result: Option<V>)
    | Stored(key: string, value: V, now: int, lost: set<string>)
    | Removed(key: string)
    | Emptied
    | Swept(keys: set<string>, now: int)
    | Touched(key: string)

  /** call: the call that this event is the effect of; None for touches and for expiry inside a Get. */
  datatype Logged<V> = Logged(event: Event<V>, call: Option<nat>)

  /** point: the log index at which the call took effect. */
  datatype Call<V> = Call(thread: nat, op: Op<V>, invoked: nat, point: Option<nat>, answer: Option<V>,
                          returned: Option<nat>)

  /** swept: the clock at the last cleanup, or at creation. */
  datatype Sys<V> = Sys(cache: Lru<V>, threads: map<nat, Pc<V>>, clock: int, swept: int,
                        log: seq<Logged<V>>, calls: seq<Call<V>>)

  datatype Step<V> = Invoke(thread: nat, op: Op<V>) | Act(thread: nat) | Return(thread: nat) | Tick(d: nat)

  function Start<V>(clock: int): Sys<V> {
    Sys(Empty(), map[], clock, clock, [], [])
  }

  function PcOf<V>(s: Sys<V>, t: nat): Pc<V> {
    if t in s.threads then s.threads[t] else Idle
  }

  function Note<V>(s: Sys<V>, e: Event<V>, call: Option<nat>): seq<Logged<V>> {
    s.log + [Logged(e, call)]
  }

  /** Call c takes effect now, as event e with the given answer; thread t moves on to pc. */
  function Effect<V>(s: Sys<V>, t: nat, c: nat, e: Event<V>, answer: Option<V>, cache: Lru<V>, pc: Pc<V>): Sys<V>
    requires c < |s.calls|
  {
    s.(cache := cache, threads := s.threads[t := pc], log := Note(s, e, Some(c)),
       calls := s.calls[c := s.calls[c].(point := Some(|s.log|), answer := answer)])
  }

  /** The next locked region of thread t. */
  function ActOf<V>(cfg: Config, s: Sys<V>, t: nat): Sys<V> {
    match PcOf(s, t)
    case Idle => s
    case Ready(_) => s
    case Called(c) => if c < |s.calls| then Begin(cfg, s, t, c) else s
    case Expiring(c, k) =>
      var after := Expire(cfg, s.cache, k, s.clock);
      s.(cache := after, threads := s.threads[t := Ready(c)],
         log := if k in s.cache.items && k !in after.items then Note(s, Swept({k}, s.clock), None) else s.log)
    case Touching(c, k, item) =>
      var live := k in s.cache.items && s.cache.items[k].id == item;
      s.(cache := Touch(s.cache, k, item), threads := s.threads[t := Ready(c)],
         log := if live then Note(s, Touched(k), None) else s.log)
  }

  // The first locked region of each operation: its effect, its answer, and what remains to do.

  function EventOf<V>(cfg: Config, cache: Lru<V>, op: Op<V>, now: int): Event<V> {
    match op
    case OpGet(k) => Looked(k, now, Lookup(cfg, cache, k, now))
    case OpSet(k, v) => Stored(k, v, now, cache.items.Keys - Put(cfg, cache, k, v, now).items.Keys)
    case OpDelete(k) => Removed(k)
    case OpClear => Emptied
    case OpCleanup => Swept(StaleKeys(cfg, cache, now), now)
  }

  function AfterOp<V>(cfg: Config, cache: Lru<V>, op: Op<V>, now: int): Lru<V> {
    match op
    case OpGet(_) => cache
    case OpSet(k, v) => Put(cfg, cache, k, v, now)
    case OpDelete(k) => Delete(cache, k)
    case OpClear => Clear(cache)
    case OpCleanup => Sweep(cfg, cache, now)
  }

  function PcAfter<V>(cfg: Config, cache: Lru<V>, op: Op<V>, now: int, c: nat): Pc<V> {
    if op.OpGet? then
      match ProbeFor(cfg, cache, op.key, now)
      case Absent => Ready(c)
      case Expired => Expiring(c, op.key)
      case Found(_, item) => Touching(c, op.key, item)
    else Ready(c)
  }

  function Begin<V>(cfg: Config, s: Sys<V>, t: nat, c: nat): Sys<V>
    requires c < |s.calls|
  {
    var op, now := s.calls[c].op, s.clock;
    Effect(s, t, c, EventOf(cfg, s.cache, op, now), if op.OpGet? then Lookup(cfg, s.cache, op.key, now) else None,
           AfterOp(cfg, s.cache, op, now), PcAfter(cfg, s.cache, op, now, c))
    .(swept := if op.OpCleanup? then now else s.swept)
  }

  /** A step that is not enabled changes nothing. */
  function Next<V>(cfg: Config, s: Sys<V>, step: Step<V>): Sys<V> {
    match step
    case Invoke(t, op) =>
      if PcOf(s, t).Idle? then
        s.(threads := s.threads[t := Called(|s.calls|)],
           calls := s.calls + [Call(t, op, |s.log|, None, None, None)])
      else s
    case Act(t) => ActOf(cfg, s, t)
    case Return(t) =>
      if PcOf(s, t).Ready? && PcOf(s, t).call < |s.calls| then
        var c := PcOf(s, t).call;
        s.(threads := s.threads[t := Idle], calls := s.calls[c := s.calls[c].(returned := Some(|s.log|))])
      else s
    case Tick(d) => s.(clock := s.clock + d)
  }

  function Run<V>(cfg: Config, s: Sys<V>, steps: seq<Step<V>>): Sys<V> {
    if steps == [] then s else Next(cfg, Run(cfg, s, steps[..|steps| - 1]), steps[|steps| - 1])
  }

  // ----- The sequential specification: an atomic expiring map -----

  datatype Slot<V> = Slot(value: V, deadline: int)

  ghost function Contents<V>(cache: Lru<V>): map<string, Slot<V>> {
    map k | k in cache.items :: Slot(cache.items[k].value, cache.items[k].expiresAt)
  }

  ghost function Read<V>(cfg: Config, m: map<string, Slot<V>>, k: string, now: int): Option<V> {
    if k in m && (cfg.ttl > 0 ==> now <= m[k].deadline) then Some(m[k].value) else None
  }

  /** One event on the map; None if the map could not have done that. A store may give up one other
      key for room, and only overdue keys may be swept. */
  ghost function Apply<V>(cfg: Config, m: map<string, Slot<V>>, e: Event<V>): Option<map<string, Slot<V>>> {
    match e
    case Looked(k, now, result) => if result == Read(cfg, m, k, now) then Some(m) else None
    case Stored(k, v, now, lost) =>
      if k !in lost && lost <= m.Keys && |lost| <= 1 then Some(m[k := Slot(v, Deadline(cfg, now))] - lost) else None
    case Removed(k) => Some(m - {k})
    case Emptied => Some(map[])
    case Swept(keys, now) =>
      if forall k :: k in keys ==> k in m && cfg.ttl > 0 && now > m[k].deadline then Some(m - keys) else None
    case Touched(_) => Some(m)
  }

  ghost function Replay<V>(cfg: Config, log: seq<Logged<V>>): Option<map<string, Slot<V>>> {
    if log == [] then Some(map[])
    else
      var before := Replay(cfg, log[..|log| - 1]);
      if before.None? then None else Apply(cfg, before.value, log[|log| - 1].event)
  }

  /** e is what op does, with this answer. */
  ghost predicate Answers<V>(e: Event<V>, op: Op<V>, answer: Option<V>) {
    match op
    case OpGet(k) => e.Looked? && e.key == k && e.result == answer
    case OpSet(k, v) => e.Stored? && e.key == k && e.value == v
    case OpDelete(k) => e == Removed(k)
    case OpClear => e == Emptied
    case OpCleanup => e.Swept?
  }

  /** The call took effect at a point inside its own interval, as an event that gives its answer. */
  ghost predicate CallOk<V>(s: Sys<V>, c: nat)
    requires c < |s.calls|
  {
    var call := s.calls[c];
    && call.invoked <= |s.log|
    && (call.point.Some? ==>
          call.invoked <= call.point.value < |s.log| && s.log[call.point.value].call == Some(c)
          && Answers(s.log[call.point.value].event, call.op, call.answer))
    && (call.returned.Some? ==> call.point.Some? && call.point.value < call.returned.value <= |s.log|)
  }

  /** No effect without its call. */
  ghost predicate EventOk<V>(s: Sys<V>, i: nat)
    requires i < |s.log|
  {
    match s.log[i].call
    case None => s.log[i].event.Touched? || s.log[i].event.Swept?
    case Some(c) => c < |s.calls| && s.calls[c].point == Some(i)
  }

  ghost predicate Linearized<V>(cfg: Config, s: Sys<V>) {
    && Replay(cfg, s.log) == Some(Contents(s.cache))
    && (forall c {:trigger s.calls[c]} :: 0 <= c < |s.calls| ==> CallOk(s, c))
    && (forall i {:trigger s.log[i]} :: 0 <= i < |s.log| ==> EventOk(s, i))
  }

  ghost predicate ThreadOk<V>(s: Sys<V>, t: nat)
    requires t in s.threads
  {
    var pc := s.threads[t];
    pc.Idle? || (
      && pc.call < |s.calls| && s.calls[pc.call].thread == t
      && s.calls[pc.call].point.Some? == !pc.Called?
      && (pc.Expiring? ==> s.calls[pc.call].answer == None))
  }

  ghost predicate Inv<V>(cfg: Config, s: Sys<V>) {
    && Valid(cfg, s.cache)
    && Linearized(cfg, s)
    && (forall t :: t in s.threads ==> ThreadOk(s, t))
  }

  // ----- Every step keeps the history linearizable -----

  lemma EffectKeeps<V>(cfg: Config, s: Sys<V>, t: nat, c: nat, e: Event<V>, answer: Option<V>, cache: Lru<V>, pc: Pc<V>)
    requires Inv(cfg, s) && PcOf(s, t) == Called(c) && c < |s.calls|
    requires Valid(cfg, cache) && Apply(cfg, Contents(s.cache), e) == Some(Contents(cache))
    requires Answers(e, s.calls[c].op, answer)
    requires !pc.Idle? && !pc.Called? && pc.call == c && (pc.Expiring? ==> answer == None)
    ensures Inv(cfg, Effect(s, t, c, e, answer, cache, pc))
  {
    var n := Effect(s, t, c, e, answer, cache, pc);
    assert ThreadOk(s, t);
    assert n.log[..|n.log| - 1] == s.log;
    forall i | 0 <= i < |n.log| ensures EventOk(n, i) {
      if i < |s.log| {
        assert n.log[i] == s.log[i] && EventOk(s, i);
      }
    }
    forall d | 0 <= d < |n.calls| ensures CallOk(n, d) {
      assert CallOk(s, d);
    }
    forall u | u in n.threads ensures ThreadOk(n, u) {
      assert u != t ==> ThreadOk(s, u);
    }
  }

  /** A step inside a Get, after its effect: at most an event that answers nobody. */
  lemma AftermathKeeps<V>(cfg: Config, s: Sys<V>, t: nat, cache: Lru<V>, note: seq<Logged<V>>)
    requires Inv(cfg, s) && (PcOf(s, t).Expiring? || PcOf(s, t).Touching?)
    requires Valid(cfg, cache)
    requires note == [] ==> Contents(cache) == Contents(s.cache)
    requires note != [] ==> |note| == 1 && note[0].call == None && (note[0].event.Touched? || note[0].event.Swept?)
    requires note != [] ==> Apply(cfg, Contents(s.cache), note[0].event) == Some(Contents(cache))
    ensures Inv(cfg, s.(cache := cache, threads := s.threads[t := Ready(PcOf(s, t).call)], log := s.log + note))
  {
    var n := s.(cache := cache, threads := s.threads[t := Ready(PcOf(s, t).call)], log := s.log + note);
    assert ThreadOk(s, t);
    if note != [] {
      assert n.log[..|n.log| - 1] == s.log;
    } else {
      assert n.log == s.log;
    }
    forall i | 0 <= i < |n.log| ensures EventOk(n, i) {
      if i < |s.log| {
        assert n.log[i] == s.log[i] && EventOk(s, i);
      }
    }
    forall d | 0 <= d < |n.calls| ensures CallOk(n, d) {
      assert CallOk(s, d);
    }
    forall u | u in n.threads ensures ThreadOk(n, u) {
      assert u != t ==> ThreadOk(s, u);
    }
  }

  lemma PutLosesAtMostOne<V>(cfg: Config, s: Lru<V>, k: string, v: V, now: int)
    requires Valid(cfg, s)
    ensures |s.items.Keys - Put(cfg, s, k, v, now).items.Keys| <= 1
  {
    hide Put, Valid;
    PutValid(cfg, s, k, v, now);
    var lost := s.items.Keys - Put(cfg, s, k, v, now).items.Keys;
    if lost != {} {
      var j :| j in lost;
      assert lost == {j};
    }
  }

  lemma PutApplies<V>(cfg: Config, s: Lru<V>, k: string, v: V, now: int)
    requires Valid(cfg, s)
    ensures var after := Put(cfg, s, k, v, now);
      Valid(cfg, after) &&
      Apply(cfg, Contents(s), Stored(k, v, now, s.items.Keys - after.items.Keys)) == Some(Contents(after))
  {
    hide Put, Valid, Contents, Apply;
    PutLosesAtMostOne(cfg, s, k, v, now);
    PutValid(cfg, s, k, v, now);
    var after := Put(cfg, s, k, v, now);
    PutContents(cfg, s, after, k, v, now);
    ContentsKeys(s);
    StoredApplies(cfg, Contents(s), k, v, now, s.items.Keys - after.items.Keys);
  }

  lemma StoredApplies<V>(cfg: Config, m: map<string, Slot<V>>, k: string, v: V, now: int, lost: set<string>)
    requires k !in lost && lost <= m.Keys && |lost| <= 1
    ensures Apply(cfg, m, Stored(k, v, now, lost)) == Some(m[k := Slot(v, Deadline(cfg, now))] - lost)
  {
  }

  lemma ContentsKeys<V>(s: Lru<V>)
    ensures Contents(s).Keys == s.items.Keys
  {
  }

  lemma PutContents<V>(cfg: Config, s: Lru<V>, after: Lru<V>, k: string, v: V, now: int)
    requires k in after.items && after.items[k].value == v && after.items[k].expiresAt == Deadline(cfg, now)
    requires forall j :: j in after.items && j != k ==> j in s.items && after.items[j] == s.items[j]
    ensures Contents(after) == Contents(s)[k := Slot(v, Deadline(cfg, now))] - (s.items.Keys - after.items.Keys)
  {
    var m := Contents(s)[k := Slot(v, Deadline(cfg, now))] - (s.items.Keys - after.items.Keys);
    assert forall j :: j in m <==> j in after.items;
  }

  lemma ContentsRemove<V>(s: Lru<V>, ks: set<string>)
    ensures Contents(Remove(s, ks)) == Contents(s) - ks
  {
  }

  lemma SweepApplies<V>(cfg: Config, s: Lru<V>, ks: set<string>, now: int)
    requires Valid(cfg, s) && forall k :: k in ks ==> k in s.items && Stale(cfg, s.items[k], now)
    ensures Valid(cfg, Remove(s, ks))
    ensures Apply(cfg, Contents(s), Swept(ks, now)) == Some(Contents(Remove(s, ks)))
  {
    RemoveValid(cfg, s, ks);
    ContentsRemove(s, ks);
  }

  lemma DeleteApplies<V>(cfg: Config, s: Lru<V>, k: string)
    requires Valid(cfg, s)
    ensures Valid(cfg, Delete(s, k)) && Contents(Delete(s, k)) == Contents(s) - {k}
  {
    DeleteValid(cfg, s, k);
    ContentsRemove(s, {k});
    if k !in s.items {
      assert Contents(s) - {k} == Contents(s);
    }
  }

  lemma OpApplies<V>(cfg: Config, cache: Lru<V>, op: Op<V>, now: int)
    requires Valid(cfg, cache)
    ensures Valid(cfg, AfterOp(cfg, cache, op, now))
    ensures Apply(cfg, Contents(cache), EventOf(cfg, cache, op, now)) == Some(Contents(AfterOp(cfg, cache, op, now)))
  {
    match op
    case OpGet(k) =>
    case OpSet(k, v) => PutApplies(cfg, cache, k, v, now);
    case OpDelete(k) => DeleteApplies(cfg, cache, k);
    case OpClear => assert Contents(Clear(cache)) == map[];
    case OpCleanup => SweepApplies(cfg, cache, StaleKeys(cfg, cache, now), now);
  }

  lemma BeginKeeps<V>(cfg: Config, s: Sys<V>, t: nat, c: nat)
    requires Inv(cfg, s) && PcOf(s, t) == Called(c) && c < |s.calls|
    ensures Inv(cfg, Begin(cfg, s, t, c))
  {
    var op, now := s.calls[c].op, s.clock;
    var answer := if op.OpGet? then Lookup(cfg, s.cache, op.key, now) else None;
    var e, after := EventOf(cfg, s.cache, op, now), AfterOp(cfg, s.cache, op, now);
    var pc := PcAfter(cfg, s.cache, op, now, c);
    OpApplies(cfg, s.cache, op, now);
    EffectKeeps(cfg, s, t, c, e, answer, after, pc);
    ClockIrrelevant(cfg, Effect(s, t, c, e, answer, after, pc), s.clock, Begin(cfg, s, t, c).swept);
  }

  lemma ClockIrrelevant<V>(cfg: Config, s: Sys<V>, clock: int, swept: int)
    requires Inv(cfg, s)
    ensures Inv(cfg, s.(clock := clock, swept := swept))
  {
    var n := s.(clock := clock, swept := swept);
    forall i | 0 <= i < |n.log| ensures EventOk(n, i) { assert EventOk(s, i); }
    forall d | 0 <= d < |n.calls| ensures CallOk(n, d) { assert CallOk(s, d); }
    forall u | u in n.threads ensures ThreadOk(n, u) { assert ThreadOk(s, u); }
  }

  lemma ActKeeps<V>(cfg: Config, s: Sys<V>, t: nat)
    requires Inv(cfg, s)
    ensures Inv(cfg, ActOf(cfg, s, t))
  {
    assert t in s.threads ==> ThreadOk(s, t);
    match PcOf(s, t)
    case Idle =>
    case Ready(_) =>
    case Called(c) => BeginKeeps(cfg, s, t, c);
    case Expiring(c, k) =>
      if k in s.cache.items && Stale(cfg, s.cache.items[k], s.clock) {
        SweepApplies(cfg, s.cache, {k}, s.clock);
        AftermathKeeps(cfg, s, t, Remove(s.cache, {k}), [Logged(Swept({k}, s.clock), None)]);
      } else {
        AftermathKeeps(cfg, s, t, s.cache, []);
        assert s.log + [] == s.log;
      }
    case Touching(c, k, item) =>
      if k in s.cache.items && s.cache.items[k].id == item {
        PromoteValid(cfg, s.cache, k);
        AftermathKeeps(cfg, s, t, Promote(s.cache, k), [Logged(Touched(k), None)]);
      } else {
        AftermathKeeps(cfg, s, t, s.cache, []);
        assert s.log + [] == s.log;
      }
  }

  lemma InvokeKeeps<V>(cfg: Config, s: Sys<V>, t: nat, op: Op<V>)
    requires Inv(cfg, s)
    ensures Inv(cfg, Next(cfg, s, Invoke(t, op)))
  {
    var n := Next(cfg, s, Invoke(t, op));
    forall i | 0 <= i < |n.log| ensures EventOk(n, i) { assert EventOk(s, i); }
    forall d | 0 <= d < |n.calls| ensures CallOk(n, d) {
      if d < |s.calls| { assert CallOk(s, d); }
    }
    forall u | u in n.threads ensures ThreadOk(n, u) {
      if u in s.threads { assert ThreadOk(s, u); }
    }
  }

  lemma ReturnKeeps<V>(cfg: Config, s: Sys<V>, t: nat)
    requires Inv(cfg, s)
    ensures Inv(cfg, Next(cfg, s, Return(t)))
  {
    var n := Next(cfg, s, Return(t));
    assert t in s.threads ==> ThreadOk(s, t);
    forall i | 0 <= i < |n.log| ensures EventOk(n, i) { assert EventOk(s, i); }
    forall d | 0 <= d < |n.calls| ensures CallOk(n, d) { assert CallOk(s, d); }
    forall u | u in n.threads ensures ThreadOk(n, u) {
      if u in s.threads { assert ThreadOk(s, u); }
    }
  }

  lemma NextKeeps<V>(cfg: Config, s: Sys<V>, step: Step<V>)
    requires Inv(cfg, s)
    ensures Inv(cfg, Next(cfg, s, step))
  {
    match step
    case Invoke(t, op) => InvokeKeeps(cfg, s, t, op);
    case Act(t) => ActKeeps(cfg, s, t);
    case Return(t) => ReturnKeeps(cfg, s, t);
    case Tick(d) => ClockIrrelevant(cfg, s, s.clock + d, s.swept);
  }

  lemma {:induction false} RunKeeps<V>(cfg: Config, clock: int, steps: seq<Step<V>>)
    ensures Inv(cfg, Run(cfg, Start(clock), steps))
  {
    if steps == [] {
      assert Contents<V>(Empty()) == map[];
    } else {
      RunKeeps(cfg, clock, steps[..|steps| - 1]);
      NextKeeps(cfg, Run(cfg, Start(clock), steps[..|steps| - 1]), steps[|steps| - 1]);
    }
  }

  /** Some schedule from an empty cache leads to s. */
  ghost predicate Reachable<V(!new)>(cfg: Config, s: Sys<V>) {
    exists clock, steps :: s == Run(cfg, Start(clock), steps)
  }

  lemma ReachableInv<V(!new)>(cfg: Config, s: Sys<V>)
    requires Reachable(cfg, s)
    ensures Inv(cfg, s)
  {
    var clock, steps :| s == Run(cfg, Start(clock), steps);
    RunKeeps(cfg, clock, steps);
  }
}
