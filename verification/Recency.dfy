/** Who gets evicted. The recency list is sorted by last touch in every interleaving, and without expiry
    and removal the cache holds exactly the most recently touched keys. */
module Recency {
  import opened Prelude
  import opened LruSpec
  import opened SplitGet

  ghost predicate Touches<V>(e: Event<V>, k: string) {
    (e.Stored? || e.Touched?) && e.key == k
  }

  /** The last time k was set or its hit was recorded; -1 for never. */
  ghost function LastTouch<V>(log: seq<Logged<V>>, k: string): (j: int)
    ensures -1 <= j < |log|
    ensures j >= 0 ==> Touches(log[j].event, k)
    ensures forall i :: j < i < |log| ==> !Touches(log[i].event, k)
  {
    if log == [] then -1
    else if Touches(log[|log| - 1].event, k) then |log| - 1
    else LastTouch(log[..|log| - 1], k)
  }

  /** Most recently touched first, strictly. */
  ghost predicate Descending<V>(log: seq<Logged<V>>, order: seq<string>) {
    order != [] ==>
      && LastTouch(log, order[0]) >= 0
      && (forall k :: k in order[1..] ==> LastTouch(log, order[0]) > LastTouch(log, k))
      && Descending(log, order[1..])
  }

  lemma {:induction false} DescendingDrop<V>(log: seq<Logged<V>>, order: seq<string>, ks: set<string>)
    requires Descending(log, order)
    ensures Descending(log, Drop(order, ks))
  {
    if order != [] {
      DescendingDrop(log, order[1..], ks);
      DropMembers(order[1..], ks);
      var rest := Drop(order[1..], ks);
      assert ([order[0]] + rest)[1..] == rest;
      assert order[0] in ks ==> Drop(order, ks) == rest;
    }
  }

  lemma {:induction false} DescendingPrefix<V>(log: seq<Logged<V>>, order: seq<string>, n: nat)
    requires Descending(log, order) && n <= |order|
    ensures Descending(log, order[..n])
  {
    if n > 0 {
      DescendingPrefix(log, order[1..], n - 1);
      assert order[..n][1..] == order[1..][..n - 1];
    }
  }

  lemma {:induction false} DescendingAt<V>(log: seq<Logged<V>>, order: seq<string>, i: nat, j: nat)
    requires Descending(log, order) && i < j < |order|
    ensures LastTouch(log, order[i]) > LastTouch(log, order[j]) >= 0
  {
    if i > 0 {
      DescendingAt(log, order[1..], i - 1, j - 1);
    } else {
      assert order[j] == order[1..][j - 1];
      DescendingTouched(log, order[1..], j - 1);
    }
  }

  lemma {:induction false} DescendingTouched<V>(log: seq<Logged<V>>, order: seq<string>, i: nat)
    requires Descending(log, order) && i < |order|
    ensures LastTouch(log, order[i]) >= 0
  {
    if i > 0 {
      DescendingTouched(log, order[1..], i - 1);
    }
  }

  /** A new event that does not touch any listed key keeps the list sorted. */
  lemma {:induction false} DescendingLater<V>(log: seq<Logged<V>>, e: Logged<V>, order: seq<string>)
    requires Descending(log, order)
    requires forall k :: k in order ==> !Touches(e.event, k)
    ensures Descending(log + [e], order)
  {
    assert (log + [e])[..|log|] == log;
    if order != [] {
      assert forall k :: k in order[1..] ==> k in order;
      assert order[0] in order;
      DescendingLater(log, e, order[1..]);
    }
  }

  /** A new event that touches k, with k moved to the front. */
  lemma DescendingFront<V>(log: seq<Logged<V>>, e: Logged<V>, order: seq<string>, k: string)
    requires Descending(log, order) && Touches(e.event, k)
    ensures Descending(log + [e], ToFront(order, k))
  {
    var rest := Drop(order, {k});
    DescendingDrop(log, order, {k});
    DropMembers(order, {k});
    DescendingLater(log, e, rest);
    assert ToFront(order, k)[1..] == rest;
  }

  lemma PutKeepsOrder<V>(cfg: Config, s: Lru<V>, log: seq<Logged<V>>, e: Logged<V>, k: string, v: V, now: int)
    requires Valid(cfg, s) && Descending(log, s.order) && Touches(e.event, k)
    ensures Descending(log + [e], Put(cfg, s, k, v, now).order)
  {
    DescendingFront(log, e, s.order, k);
    if k !in s.items {
      DropNothing(s.order, {k});
      var grown := Grow(s, k, v, Deadline(cfg, now));
      if cfg.maxSize > 0 && |grown.order| > cfg.maxSize {
        DescendingPrefix(log + [e], grown.order, cfg.maxSize);
      }
    }
  }

  lemma OpKeepsOrder<V>(cfg: Config, cache: Lru<V>, op: Op<V>, now: int, log: seq<Logged<V>>, e: Logged<V>)
    requires Valid(cfg, cache) && Descending(log, cache.order) && e.event == EventOf(cfg, cache, op, now)
    ensures Descending(log + [e], AfterOp(cfg, cache, op, now).order)
  {
    match op
    case OpGet(k) => DescendingLater(log, e, cache.order);
    case OpSet(k, v) => PutKeepsOrder(cfg, cache, log, e, k, v, now);
    case OpDelete(k) =>
      DescendingLater(log, e, cache.order);
      DescendingDrop(log + [e], cache.order, {k});
    case OpClear =>
    case OpCleanup =>
      DescendingLater(log, e, cache.order);
      DescendingDrop(log + [e], cache.order, StaleKeys(cfg, cache, now));
  }

  lemma NextKeepsOrder<V>(cfg: Config, s: Sys<V>, step: Step<V>)
    requires Inv(cfg, s) && Descending(s.log, s.cache.order)
    ensures var n := Next(cfg, s, step); Descending(n.log, n.cache.order)
  {
    var n := Next(cfg, s, step);
    if step.Act? && step.thread in s.threads {
      assert ThreadOk(s, step.thread);
      match PcOf(s, step.thread)
      case Called(c) => OpKeepsOrder(cfg, s.cache, s.calls[c].op, s.clock, s.log, n.log[|s.log|]);
      case Expiring(_, k) =>
        if n.log != s.log {
          DescendingLater(s.log, n.log[|s.log|], s.cache.order);
          DescendingDrop(n.log, s.cache.order, {k});
        }
      case Touching(_, k, item) =>
        if n.log != s.log {
          DescendingFront(s.log, n.log[|s.log|], s.cache.order, k);
        }
      case _ =>
    }
  }

  lemma {:induction false} RunKeepsOrder<V>(cfg: Config, clock: int, steps: seq<Step<V>>)
    ensures var s := Run(cfg, Start(clock), steps); Descending(s.log, s.cache.order)
  {
    if steps != [] {
      var init := steps[..|steps| - 1];
      RunKeeps(cfg, clock, init);
      RunKeepsOrder(cfg, clock, init);
      NextKeepsOrder(cfg, Run(cfg, Start(clock), init), steps[|steps| - 1]);
    }
  }

  /** In every interleaving the list is strictly descending in last touch. */
  lemma ListIsDescending<V(!new)>(cfg: Config, s: Sys<V>)
    requires Reachable(cfg, s)
    ensures Valid(cfg, s.cache) && Descending(s.log, s.cache.order)
  {
    var clock, steps :| s == Run(cfg, Start(clock), steps);
    ReachableInv(cfg, s);
    RunKeepsOrder(cfg, clock, steps);
  }

  /** A Get that hits goes on to touch the item it found. */
  lemma HitGoesOnToTouch<V>(cfg: Config, s: Sys<V>, t: nat, c: nat, k: string)
    requires PcOf(s, t) == Called(c) && c < |s.calls| && s.calls[c].op == OpGet(k)
    ensures Lookup(cfg, s.cache, k, s.clock).Some? ==>
              k in s.cache.items && PcOf(ActOf(cfg, s, t), t) == Touching(c, k, s.cache.items[k].id)
  {
  }

  /** A touch moves the key to the front, and makes it the last one touched, exactly if the item that was
      found is still resident; otherwise nothing happens. */
  lemma TouchMovesIffResident<V>(cfg: Config, s: Sys<V>, t: nat, c: nat, k: string, item: nat)
    requires Valid(cfg, s.cache) && PcOf(s, t) == Touching(c, k, item)
    ensures var n, resident := ActOf(cfg, s, t), k in s.cache.items && s.cache.items[k].id == item;
      && n.cache.items == s.cache.items && n.cache.evicted == s.cache.evicted
      && (resident ==> |n.cache.order| > 0 && n.cache.order[0] == k
                       && Drop(n.cache.order, {k}) == Drop(s.cache.order, {k})
                       && LastTouch(n.log, k) == |s.log| == |n.log| - 1)
      && (!resident ==> n.cache == s.cache && n.log == s.log)
  {
    hide Promote, Drop;
    if k in s.cache.items {
      PromoteMeaning(cfg, s.cache, k);
    }
  }

  /** A key that a Set pushes out was at the back of a full cache, behind every other key. */
  lemma VictimIsLast<V>(cfg: Config, s: Lru<V>, k: string, v: V, now: int, x: string, other: string)
    requires Valid(cfg, s) && x in s.items && x !in Put(cfg, s, k, v, now).items && other in s.items && other != x
    ensures k !in s.items && |s.items| == cfg.maxSize && |s.order| > 0
    ensures s.order[|s.order| - 1] == x && exists i :: 0 <= i < |s.order| - 1 && s.order[i] == other
  {
    PutValid(cfg, s, k, v, now);
    Sizes(cfg, s);
    var i := IndexOf(s.order, other);
  }

  /** In every interleaving, the key that a Set pushes out is the resident key touched longest ago. */
  lemma VictimIsOldest<V(!new)>(cfg: Config, s: Sys<V>, k: string, v: V, x: string, other: string)
    requires Reachable(cfg, s) && x in s.cache.items && other in s.cache.items && other != x
    requires x !in Put(cfg, s.cache, k, v, s.clock).items
    ensures k !in s.cache.items && |s.cache.items| == cfg.maxSize
    ensures LastTouch(s.log, x) < LastTouch(s.log, other)
  {
    hide Put, LastTouch, Descending;
    ListIsDescending(cfg, s);
    VictimIsLast(cfg, s.cache, k, v, s.clock, x, other);
    var order := s.cache.order;
    var i :| 0 <= i < |order| - 1 && order[i] == other;
    DescendingAt(s.log, order, i, |order| - 1);
  }

  // ----- Exactly the most recently touched keys -----

  /** All keys ever touched, most recent first: the recency list of a cache without a bound. */
  ghost function Stack<V>(log: seq<Logged<V>>): seq<string> {
    if log == [] then []
    else
      var e, st := log[|log| - 1].event, Stack(log[..|log| - 1]);
      if e.Stored? || e.Touched? then ToFront(st, e.key) else st
  }

  lemma {:induction false} StackOk<V>(log: seq<Logged<V>>)
    ensures NoDup(Stack(log)) && Descending(log, Stack(log))
    ensures forall k :: k in Stack(log) <==> LastTouch(log, k) >= 0
  {
    if log != [] {
      var init, e := log[..|log| - 1], log[|log| - 1];
      StackOk(init);
      assert log == init + [e];
      var st := Stack(init);
      if e.event.Stored? || e.event.Touched? {
        DescendingFront(init, e, st, e.event.key);
        DropMembers(st, {e.event.key});
        DropNoDup(st, {e.event.key});
        NoDupCons(e.event.key, Drop(st, {e.event.key}));
      } else {
        DescendingLater(init, e, st);
      }
    }
  }

  ghost function Top(cfg: Config, st: seq<string>): seq<string> {
    if cfg.maxSize > 0 && |st| > cfg.maxSize then st[..cfg.maxSize] else st
  }

  /** Touching a key and cutting to size commute, whether or not the key survived the cut. */
  lemma TopToFront(cfg: Config, st: seq<string>, k: string)
    requires NoDup(st)
    ensures k in Top(cfg, st) ==> ToFront(Top(cfg, st), k) == Top(cfg, ToFront(st, k))
    ensures k !in Top(cfg, st) ==> Top(cfg, [k] + Top(cfg, st)) == Top(cfg, ToFront(st, k))
  {
    var top := Top(cfg, st);
    if k in st {
      var i := IndexOf(st, k);
      DropAt(st, i);
      if i < |top| {
        NoDupPairs(st);
        NoDupPairs(top);
        assert top[i] == k;
        DropAt(top, i);
        assert [k] + (top[..i] + top[i + 1..]) == Top(cfg, [k] + (st[..i] + st[i + 1..]));
      } else {
        assert [k] + top[..|top| - 1] == Top(cfg, [k] + (st[..i] + st[i + 1..]));
        forall j | 0 <= j < |top| ensures top[j] != k { assert IndexOf(st, st[j]) == j; }
      }
    } else {
      DropNothing(st, {k});
    }
  }

  ghost predicate OnlyGetSet<V>(steps: seq<Step<V>>) {
    forall i :: 0 <= i < |steps| && steps[i].Invoke? ==>
      steps[i].op.OpGet? || steps[i].op.OpSet? || steps[i].op.OpCleanup?
  }

  ghost predicate HoldsTop<V>(cfg: Config, s: Sys<V>) {
    && s.cache.order == Top(cfg, Stack(s.log))
    && (forall c :: 0 <= c < |s.calls| ==> !s.calls[c].op.OpDelete? && !s.calls[c].op.OpClear?)
  }

  lemma SetKeepsTop<V>(cfg: Config, cache: Lru<V>, k: string, v: V, now: int, st: seq<string>)
    requires Valid(cfg, cache) && cache.order == Top(cfg, st) && NoDup(st)
    ensures Put(cfg, cache, k, v, now).order == Top(cfg, ToFront(st, k))
  {
    hide Stack;
    TopToFront(cfg, st, k);
  }

  lemma OpKeepsTop<V>(cfg: Config, cache: Lru<V>, op: Op<V>, now: int, log: seq<Logged<V>>, e: Logged<V>)
    requires cfg.ttl <= 0 && Valid(cfg, cache) && cache.order == Top(cfg, Stack(log))
    requires e.event == EventOf(cfg, cache, op, now) && !op.OpDelete? && !op.OpClear?
    ensures AfterOp(cfg, cache, op, now).order == Top(cfg, Stack(log + [e]))
  {
    hide Put;
    assert (log + [e])[..|log|] == log;
    StackOk(log);
    match op
    case OpGet(_) =>
    case OpSet(k, v) => SetKeepsTop(cfg, cache, k, v, now, Stack(log));
    case OpCleanup => SweepOff(cfg, cache, now);
  }

  lemma TouchKeepsTop<V>(cfg: Config, s: Sys<V>, e: Logged<V>, k: string)
    requires HoldsTop(cfg, s) && k in s.cache.order && e.event == Touched(k)
    ensures Promote(s.cache, k).order == Top(cfg, Stack(s.log + [e]))
  {
    StackOk(s.log);
    TopToFront(cfg, Stack(s.log), k);
    assert (s.log + [e])[..|s.log|] == s.log;
  }

  lemma NextKeepsTop<V>(cfg: Config, s: Sys<V>, step: Step<V>)
    requires cfg.ttl <= 0 && Valid(cfg, s.cache) && HoldsTop(cfg, s)
    requires step.Invoke? ==> step.op.OpGet? || step.op.OpSet? || step.op.OpCleanup?
    ensures HoldsTop(cfg, Next(cfg, s, step))
  {
    hide Top, Stack, Put, AfterOp, EventOf;
    if step.Act? {
      match PcOf(s, step.thread)
      case Called(c) =>
        if c < |s.calls| {
          OpKeepsTop(cfg, s.cache, s.calls[c].op, s.clock, s.log, Next(cfg, s, step).log[|s.log|]);
        }
      case Touching(_, k, item) =>
        if k in s.cache.items && s.cache.items[k].id == item {
          TouchKeepsTop(cfg, s, Logged(Touched(k), None), k);
        }
      case _ =>
    }
  }

  lemma {:induction false} RunKeepsTop<V>(cfg: Config, clock: int, steps: seq<Step<V>>)
    requires cfg.ttl <= 0 && OnlyGetSet(steps)
    ensures HoldsTop(cfg, Run(cfg, Start(clock), steps))
  {
    if steps != [] {
      var init := steps[..|steps| - 1];
      RunKeeps(cfg, clock, init);
      RunKeepsTop(cfg, clock, init);
      NextKeepsTop(cfg, Run(cfg, Start(clock), init), steps[|steps| - 1]);
    }
  }

  /** The keys touched after k was. */
  ghost function Newer<V>(log: seq<Logged<V>>, k: string): set<string> {
    set j | j in Stack(log) && LastTouch(log, j) > LastTouch(log, k)
  }

  lemma NewerSize<V>(log: seq<Logged<V>>, i: nat)
    requires i < |Stack(log)|
    ensures |Newer(log, Stack(log)[i])| == i
  {
    var st := Stack(log);
    StackOk(log);
    NoDupPairs(st);
    NoDupPairs(st[..i]);
    ElementsSize(st[..i]);
    forall j | j in st ensures LastTouch(log, j) > LastTouch(log, st[i]) <==> j in st[..i] {
      var w := IndexOf(st, j);
      if w < i {
        DescendingAt(log, st, w, i);
        assert st[..i][w] == j;
      } else if w > i {
        DescendingAt(log, st, i, w);
      }
    }
    assert Newer(log, st[i]) == Elements(st[..i]);
  }

  /** With expiry off and no Delete or Clear, a key is resident exactly if it was ever touched and
      fewer than maxSize distinct keys were touched after it. */
  lemma HoldsTheMostRecent<V>(cfg: Config, clock: int, steps: seq<Step<V>>, s: Sys<V>, k: string)
    requires cfg.ttl <= 0 && OnlyGetSet(steps) && s == Run(cfg, Start(clock), steps)
    ensures k in s.cache.items <==> LastTouch(s.log, k) >= 0 && (cfg.maxSize > 0 ==> |Newer(s.log, k)| < cfg.maxSize)
  {
    RunKeeps(cfg, clock, steps);
    RunKeepsTop(cfg, clock, steps);
    TopMembers(cfg, s.log, k);
  }

  /** The first maxSize keys of the stack are those that fewer than maxSize keys were touched after. */
  lemma TopMembers<V>(cfg: Config, log: seq<Logged<V>>, k: string)
    ensures k in Top(cfg, Stack(log)) <==> LastTouch(log, k) >= 0 && (cfg.maxSize > 0 ==> |Newer(log, k)| < cfg.maxSize)
  {
    var st := Stack(log);
    StackOk(log);
    if k in st {
      var i := IndexOf(st, k);
      NewerSize(log, i);
      var top := Top(cfg, st);
      if i < |top| {
        assert top[i] == k;
      } else {
        forall j | 0 <= j < |top| ensures top[j] != k { assert IndexOf(st, st[j]) == j; }
      }
    }
  }
}
