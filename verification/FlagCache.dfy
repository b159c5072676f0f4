/** The cache of featureflag/cache/cache.go: a map of items and a linked recency list, kept in step
    through the element handle in each item. Every method is one critical section (Get is two) and is
    proved equal to its specification in LruSpec. Clock readings are parameters. */
module FlagCache {
  import opened Prelude
  import opened LruSpec
  import opened RecencyList
  import opened Metrics

  class CacheItem<V> {
    var flag: V
    var expiresAt: int
    const element: Element
    ghost const id: nat

    constructor (flag: V, expiresAt: int, element: Element, ghost id: nat)
      ensures this.flag == flag && this.expiresAt == expiresAt && this.element == element && this.id == id
    {
      this.flag, this.expiresAt, this.element, this.id := flag, expiresAt, element, id;
    }
  }

  /** What a thread carries from the read lock to the write lock of Get. */
  datatype Seen<V> = Missing | TimedOut | Hit(flag: V, item: CacheItem<V>) {
    ghost function AsProbe(): Probe<V> {
      match this
      case Missing => Absent
      case TimedOut => Expired
      case Hit(flag, item) => Found(flag, item.id)
    }
  }

  /** Map and list agree, as far as that does not depend on the heap: the list's values are the map's
      keys, each item's element is the node that holds the item's own key, and an item's id is its
      index among the items ever issued. `model` is the same cache as LruSpec sees it. */
  ghost predicate Matched<V>(nodes: seq<Element>, items: map<string, CacheItem<V>>, issued: seq<CacheItem<V>>,
                             model: Lru<V>, ttl: int) {
    && NoDup(nodes)
    && (forall i {:trigger nodes[i].value} :: 0 <= i < |nodes| ==>
          nodes[i].value in items && items[nodes[i].value].element == nodes[i])
    && (forall k {:trigger items[k].element} :: k in items ==> items[k].element in nodes && items[k].element.value == k)
    && (forall k {:trigger items[k].id} :: k in items ==> items[k].id < |issued| && issued[items[k].id] == items[k])
    && (forall i {:trigger issued[i].id} :: 0 <= i < |issued| ==> issued[i].id == i)
    && model.order == Values(nodes)
    && model.items.Keys == items.Keys
    && (forall k {:trigger model.items[k].id} :: k in items ==> model.items[k].id == items[k].id)
    && (ttl <= 0 ==> forall k {:trigger model.items[k].expiresAt} :: k in items ==> model.items[k].expiresAt == 0)
    && model.issued == |issued|
  }

  lemma MatchedValid<V>(nodes: seq<Element>, items: map<string, CacheItem<V>>, issued: seq<CacheItem<V>>,
                        model: Lru<V>, cfg: Config)
    requires Matched(nodes, items, issued, model, cfg.ttl)
    requires cfg.maxSize > 0 ==> |model.order| <= cfg.maxSize
    ensures LruSpec.Valid(cfg, model)
  {
    var order := Values(nodes);
    forall k | k in items ensures k in order {
      var i := IndexOf(nodes, items[k].element);
      assert order[i] == k;
    }
    forall i | 0 <= i < |order| ensures IndexOf(order, order[i]) == i {
      var j := IndexOf(order, order[i]);
      assert nodes[j].value == nodes[i].value && nodes[j] == nodes[i];
    }
    forall k | k in model.items ensures model.items[k].id < model.issued {
      assert items[k].id < |issued|;
    }
  }

  lemma OrderWithout<V>(nodes: seq<Element>, items: map<string, CacheItem<V>>, issued: seq<CacheItem<V>>,
                        model: Lru<V>, ttl: int, i: nat)
    requires Matched(nodes, items, issued, model, ttl) && i < |nodes|
    ensures Values(nodes[..i] + nodes[i + 1..]) == Drop(Values(nodes), {nodes[i].value})
  {
    hide LruSpec.Valid;
    MatchedValid(nodes, items, issued, model, Config(0, ttl));
    DropAt(Values(nodes), i);
    assert Values(nodes[..i] + nodes[i + 1..]) == Values(nodes)[..i] + Values(nodes)[i + 1..];
  }

  lemma MatchedRemove<V>(nodes: seq<Element>, items: map<string, CacheItem<V>>, issued: seq<CacheItem<V>>,
                         model: Lru<V>, ttl: int, i: nat)
    requires Matched(nodes, items, issued, model, ttl) && i < |nodes|
    ensures var key := nodes[i].value;
      Matched(nodes[..i] + nodes[i + 1..], items - {key}, issued, Remove(model, {key}), ttl)
  {
    var key, rest := nodes[i].value, nodes[..i] + nodes[i + 1..];
    OrderWithout(nodes, items, issued, model, ttl, i);
    NoDupWithout(nodes, i);
    WithoutMembers(nodes, i);
    assert forall j :: 0 <= j < |rest| ==> rest[j] in rest;
    forall k | k in items && k != key
      ensures items[k].element in rest
    {
      assert items[k].element != nodes[i];
    }
  }

  lemma MatchedPromote<V>(nodes: seq<Element>, items: map<string, CacheItem<V>>, issued: seq<CacheItem<V>>,
                          model: Lru<V>, ttl: int, i: nat)
    requires Matched(nodes, items, issued, model, ttl) && i < |nodes|
    ensures Matched([nodes[i]] + nodes[..i] + nodes[i + 1..], items, issued, Promote(model, nodes[i].value), ttl)
  {
    hide Drop;
    var rest := nodes[..i] + nodes[i + 1..];
    var front := [nodes[i]] + nodes[..i] + nodes[i + 1..];
    assert front == [nodes[i]] + rest;
    OrderWithout(nodes, items, issued, model, ttl, i);
    NoDupWithout(nodes, i);
    NoDupCons(nodes[i], rest);
    assert Values(front) == [nodes[i].value] + Values(rest);
    FrontMembers(nodes, i);
    assert forall j :: 0 <= j < |front| ==> front[j] in front;
  }

  lemma MatchedPush<V>(nodes: seq<Element>, items: map<string, CacheItem<V>>, issued: seq<CacheItem<V>>,
                       model: Lru<V>, ttl: int, key: string, item: CacheItem<V>, flag: V, expiresAt: int)
    requires Matched(nodes, items, issued, model, ttl)
    requires key !in items && item.element.value == key && item.id == |issued| && (ttl <= 0 ==> expiresAt == 0)
    ensures Matched([item.element] + nodes, items[key := item], issued + [item], Grow(model, key, flag, expiresAt), ttl)
  {
    assert item.element !in nodes;
    NoDupCons(item.element, nodes);
    assert Values([item.element] + nodes) == [key] + Values(nodes);
  }

  lemma MatchedUpdate<V>(nodes: seq<Element>, items: map<string, CacheItem<V>>, issued: seq<CacheItem<V>>,
                         model: Lru<V>, cfg: Config, key: string, flag: V, now: int)
    requires Matched(nodes, items, issued, model, cfg.ttl) && key in items
    ensures Matched(nodes, items, issued, Overwrite(cfg, model, key, flag, now), cfg.ttl)
    ensures forall k :: k in items && k != key ==> items[k] != items[key]
  {
    forall k | k in items && k != key ensures items[k] != items[key] {
      assert items[k].element.value == k && items[key].element.value == key;
    }
  }

  class Cache<V> {
    var items: map<string, CacheItem<V>>
    const lruList: List
    const maxSize: int
    const ttl: int
    /** What the eviction callback does: bump this counter. Null when no callback is set. */
    const onEvict: Counter?

    /** The cache as LruSpec sees it. */
    ghost var model: Lru<V>
    /** Every item this cache ever made. */
    ghost var issued: seq<CacheItem<V>>
    ghost var Repr: set<object>

    /** The objects are among objs and do not overlap, and the ring is sound. */
    ghost predicate OwnedIn(objs: set<object>)
      reads this, objs
    {
      && this in objs && lruList in objs && lruList.Repr <= objs && Apart(this, lruList.Repr)
      && (forall k {:trigger items[k]} :: k in items ==>
            items[k] in objs && Apart(items[k], lruList.Repr) && Apart(items[k], {this, lruList}))
      && (onEvict != null ==> onEvict !in objs)
      && lruList.Valid()
    }

    ghost predicate Owned()
      reads this, Repr
    {
      OwnedIn(Repr)
    }

    /** The items hold what the model says. */
    ghost predicate Shows()
      reads this, items.Values
    {
      forall k {:trigger model.items[k]} :: k in items && k in model.items ==>
        model.items[k].value == items[k].flag && model.items[k].expiresAt == items[k].expiresAt
    }

    ghost predicate InStep()
      reads this, Repr
    {
      Owned() && Matched(lruList.nodes, items, issued, model, ttl) && Shows()
    }

    ghost predicate Valid()
      reads this, Repr
    {
      InStep() && (maxSize > 0 ==> |model.order| <= maxSize)
    }

    function Cfg(): Config {
      Config(maxSize, ttl)
    }

    ghost function Hooks(): set<object> {
      if onEvict == null then {} else {onEvict}
    }

    /** The callback ran once for every entry that removeItem dropped. */
    twostate predicate Counted()
      reads this, onEvict
    {
      onEvict != null ==> onEvict.count - old(onEvict.count) == model.evicted - old(model.evicted)
    }

    lemma ModelValid()
      requires Valid()
      ensures LruSpec.Valid(Cfg(), model) && |items| == |model.order| == |model.items|
    {
      MatchedValid(lruList.nodes, items, issued, model, Cfg());
      Sizes(Cfg(), model);
      assert |items.Keys| == |model.items.Keys|;
    }

    constructor (maxSize: int, ttl: int, onEvict: Counter?)
      ensures Valid() && model == Empty() && fresh(Repr)
      ensures this.maxSize == maxSize && this.ttl == ttl && this.onEvict == onEvict
    {
      items := map[];
      lruList := new List();
      this.maxSize, this.ttl, this.onEvict := maxSize, ttl, onEvict;
      model, issued := Empty(), [];
      new;
      Repr := {this, lruList} + lruList.Repr;
    }

    /** lruList.Remove touches nothing but the ring. */
    method DropNode(item: CacheItem<V>, ghost i: nat)
      requires Owned() && Shows() && i < |lruList.nodes| && lruList.nodes[i] == item.element
      modifies lruList, lruList.Repr
      ensures Owned() && Shows()
      ensures lruList.nodes == old(lruList.nodes)[..i] + old(lruList.nodes)[i + 1..]
      ensures items == old(items) && issued == old(issued) && Repr == old(Repr) && model == old(model)
    {
      lruList.Remove(item.element, i);
    }

    /** The map and list half of removeItem. */
    method Unlink(key: string, item: CacheItem<V>)
      requires InStep() && key in items && items[key] == item
      modifies this, lruList, lruList.Repr
      ensures InStep() && model == Remove(old(model), {key})
      ensures items == old(items) - {key} && issued == old(issued) && Repr == old(Repr)
    {
      ghost var i := IndexOf(lruList.nodes, items[key].element);
      MatchedRemove(lruList.nodes, items, issued, model, ttl, i);
      items, model := items - {key}, Remove(model, {key});
      DropNode(item, i);
    }

    /** removeItem: out of the map, out of the list, then one call of the eviction callback. */
    method RemoveItem(key: string, item: CacheItem<V>)
      requires InStep() && key in items && items[key] == item
      modifies Repr, Hooks()
      ensures InStep() && model == Remove(old(model), {key})
      ensures items == old(items) - {key} && issued == old(issued) && Repr == old(Repr)
      ensures Counted() && model.evicted == old(model.evicted) + 1
    {
      assert {key} * model.items.Keys == {key};
      Unlink(key, item);
      if onEvict != null {
        onEvict.Add();
      }
    }

    /** lruList.MoveToFront touches nothing but the ring. */
    method MoveNode(item: CacheItem<V>, ghost i: nat)
      requires Owned() && Shows() && i < |lruList.nodes| && lruList.nodes[i] == item.element
      modifies lruList, lruList.Repr
      ensures Owned() && Shows()
      ensures lruList.nodes == [item.element] + old(lruList.nodes)[..i] + old(lruList.nodes)[i + 1..]
      ensures items == old(items) && issued == old(issued) && Repr == old(Repr) && model == old(model)
    {
      lruList.MoveToFront(item.element, i);
    }

    /** lruList.MoveToFront for the element of a resident item. */
    method MoveToFront(key: string, item: CacheItem<V>)
      requires InStep() && key in items && items[key] == item
      modifies this`model, lruList, lruList.Repr
      ensures InStep() && model == Promote(old(model), key)
    {
      ghost var i := IndexOf(lruList.nodes, items[key].element);
      MatchedPromote(lruList.nodes, items, issued, model, ttl, i);
      model := Promote(model, key);
      MoveNode(item, i);
    }

    /** The field writes of Set for a resident key. */
    method WriteItem(existingItem: CacheItem<V>, flag: V, now: int)
      requires Owned() && existingItem in items.Values
      modifies existingItem
      ensures Owned() && existingItem.flag == flag
      ensures existingItem.expiresAt == if ttl > 0 then now + ttl else old(existingItem.expiresAt)
    {
      existingItem.flag := flag;
      if ttl > 0 {
        existingItem.expiresAt := now + ttl;
      }
    }

    method Update(existingItem: CacheItem<V>, key: string, flag: V, now: int)
      requires InStep() && key in items && existingItem == items[key]
      modifies this`model, existingItem
      ensures InStep() && model == Overwrite(Cfg(), old(model), key, flag, now)
      ensures items == old(items) && issued == old(issued) && Repr == old(Repr)
    {
      MatchedUpdate(lruList.nodes, items, issued, model, Cfg(), key, flag, now);
      WriteItem(existingItem, flag, now);
      model := Overwrite(Cfg(), model, key, flag, now);
    }

    lemma Resident(key: string)
      requires InStep() && key in items
      ensures key in model.items && this in Repr && items[key] in Repr
    {
    }

    /** Set for a key that is resident: update the item in place and touch it. */
    method Refresh(key: string, flag: V, now: int)
      requires InStep() && key in items
      modifies Repr
      ensures InStep() && model == Put(Cfg(), old(model), key, flag, now)
      ensures items == old(items) && issued == old(issued) && Repr == old(Repr)
    {
      Resident(key);
      hide InStep;
      var existingItem := items[key];
      Update(existingItem, key, flag, now);
      MoveToFront(key, existingItem);
    }

    /** A new element at the front of the list, and the item that holds it. */
    method NewItem(key: string, flag: V, expiresAt: int) returns (item: CacheItem<V>)
      requires Owned() && Shows()
      modifies lruList, lruList.Repr
      ensures fresh(item) && fresh(item.element) && item.element.value == key && item.id == |issued|
      ensures item.flag == flag && item.expiresAt == expiresAt
      ensures OwnedIn(Repr + {item.element, item}) && Apart(item, lruList.Repr) && Shows()
      ensures lruList.nodes == [item.element] + old(lruList.nodes)
      ensures items == old(items) && issued == old(issued) && Repr == old(Repr) && model == old(model)
    {
      var element := lruList.PushFront(key);
      item := new CacheItem(flag, expiresAt, element, |issued|);
    }

    /** c.items[key] = item */
    method Adopt(item: CacheItem<V>, key: string)
      requires OwnedIn(Repr + {item.element, item}) && Apart(item, lruList.Repr) && Shows()
      requires key !in items && key !in model.items
      modifies this
      ensures Owned() && Shows() && lruList.nodes == old(lruList.nodes)
      ensures items == old(items)[key := item] && issued == old(issued) + [item]
      ensures Repr == old(Repr) + {item.element, item} && model == Grow(old(model), key, item.flag, item.expiresAt)
    {
      model := Grow(model, key, item.flag, item.expiresAt);
      items, issued, Repr := items[key := item], issued + [item], Repr + {item.element, item};
    }

    /** Set for a new key, up to the eviction. */
    method Insert(key: string, flag: V, expiresAt: int) returns (item: CacheItem<V>)
      requires InStep() && key !in items && (ttl <= 0 ==> expiresAt == 0)
      modifies Repr
      ensures InStep() && issued == old(issued) + [item]
      ensures Repr == old(Repr) + {item.element, item} && fresh(item) && fresh(item.element)
      ensures model == Grow(old(model), key, flag, expiresAt) && Counted()
    {
      item := NewItem(key, flag, expiresAt);
      MatchedPush(old(lruList.nodes), items, issued, model, ttl, key, item, flag, expiresAt);
      Adopt(item, key);
    }

    // ----- The critical sections -----

    /** lruList.Back() finds a resident key, the last one of the order. */
    method Oldest() returns (oldest: Element?)
      requires InStep() && items != map[]
      ensures oldest != null && oldest.value in items
      ensures |model.order| > 0 && oldest.value == model.order[|model.order| - 1]
    {
      ghost var k :| k in items;
      assert items[k].element in lruList.nodes;
      oldest := lruList.Back();
    }

    /** One round of evictIfNeeded's loop. */
    method EvictOldest()
      requires InStep() && items != map[]
      modifies Repr, Hooks()
      ensures InStep() && Repr == old(Repr) && issued == old(issued)
      ensures |old(model).order| > 0 && model == Remove(old(model), {old(model).order[|old(model).order| - 1]})
      ensures Counted()
    {
      hide InStep;
      var oldest := Oldest();
      if oldest != null {
        var key := oldest.value;
        if key in items {
          RemoveItem(key, items[key]);
        }
      }
    }

    lemma Count()
      requires InStep()
      ensures LruSpec.Valid(Config(0, ttl), model) && |items| == |model.order|
    {
      MatchedValid(lruList.nodes, items, issued, model, Config(0, ttl));
      Sizes(Config(0, ttl), model);
      assert |items.Keys| == |model.items.Keys|;
    }

    /** The loop ends because every round finds the back key in the map and removes it. */
    method EvictIfNeeded()
      requires InStep()
      modifies Repr, Hooks()
      ensures Valid() && model == Truncate(Cfg(), old(model))
      ensures Repr == old(Repr) && issued == old(issued)
      ensures Counted()
    {
      hide InStep, Remove, Truncate, LruSpec.Valid;
      Count();
      while maxSize > 0 && |items| > maxSize
        invariant InStep() && Repr == old(Repr) && issued == old(issued)
        invariant |items| == |model.order|
        invariant Truncate(Cfg(), model) == Truncate(Cfg(), old(model))
        invariant onEvict != null ==> onEvict.count - old(onEvict.count) == model.evicted - old(model.evicted)
        decreases |items|
      {
        Count();
        TruncateStep(Cfg(), model);
        EvictOldest();
        Count();
      }
      TruncateDone(Cfg(), model);
    }

    method Set(key: string, flag: V, now: int)
      requires Valid()
      modifies Repr, Hooks()
      ensures Valid() && model == Put(Cfg(), old(model), key, flag, now)
      ensures fresh(Repr - old(Repr)) && old(issued) <= issued && Counted()
    {
      ModelValid();
      assert key in items <==> key in model.items;
      hide InStep;
      if key in items {
        PutResident(Cfg(), model, key, flag, now);
        Refresh(key, flag, now);
      } else {
        Admit(key, flag, now);
      }
    }

    /** Set for a new key. */
    method Admit(key: string, flag: V, now: int)
      requires InStep() && key !in items
      modifies Repr, Hooks()
      ensures Valid() && model == Truncate(Cfg(), Grow(old(model), key, flag, Deadline(Cfg(), now)))
      ensures fresh(Repr - old(Repr)) && old(issued) <= issued
      ensures Counted()
    {
      hide InStep;
      var expiresAt := 0;
      if ttl > 0 {
        expiresAt := now + ttl;
      }
      var item := Insert(key, flag, expiresAt);
      EvictIfNeeded();
    }

    /** `if item, exists := c.items[key]; exists` followed by removeItem, as in Delete and the sweep. */
    method RemoveIfPresent(key: string)
      requires Valid()
      modifies Repr, Hooks()
      ensures Valid() && model == LruSpec.Delete(old(model), key)
      ensures Repr == old(Repr) && issued == old(issued) && Counted()
    {
      ModelValid();
      DeleteValid(Cfg(), model, key);
      assert key in items <==> key in model.items;
      hide InStep;
      if key in items {
        RemoveItem(key, items[key]);
      }
    }

    method Delete(key: string)
      requires Valid()
      modifies Repr, Hooks()
      ensures Valid() && model == LruSpec.Delete(old(model), key)
      ensures Repr == old(Repr) && issued == old(issued) && Counted()
    {
      RemoveIfPresent(key);
    }

    /** Clear makes a new map and re-initialises the list; no callback. Old elements keep pointing into
        the ring, which is why a later touch must find its own item in the map first. */
    method Clear()
      requires Valid()
      modifies Repr
      ensures Valid() && model == LruSpec.Clear(old(model)) && Counted()
      ensures items == map[] && model.order == [] && model.evicted == old(model.evicted)
      ensures Repr == old(Repr) && issued == old(issued)
    {
      items := map[];
      lruList.Init();
      model := LruSpec.Clear(model);
    }

    method Size() returns (n: nat)
      requires Valid()
      ensures n == |model.items| == |model.order|
    {
      ModelValid();
      return |items|;
    }

    /** The read-locked half of Get. */
    method ProbeLocked(key: string, now: int) returns (seen: Seen<V>)
      requires Valid()
      ensures seen.AsProbe() == ProbeFor(Cfg(), model, key, now)
      ensures seen.Hit? ==> seen.item in issued
    {
      assert key in items <==> key in model.items;
      if key !in items {
        return Missing;
      }
      var item := items[key];
      assert model.items[key].id == item.id && model.items[key].value == item.flag;
      if ttl > 0 && now > item.expiresAt {
        return TimedOut;
      }
      return Hit(item.flag, item);
    }

    /** The write-locked half of Get for an expired entry: check again, then remove. */
    method ExpireLocked(key: string, now: int)
      requires Valid()
      modifies Repr, Hooks()
      ensures Valid() && model == Expire(Cfg(), old(model), key, now)
      ensures Repr == old(Repr) && issued == old(issued) && Counted()
    {
      hide Remove;
      ModelValid();
      DeleteValid(Cfg(), model, key);
      assert key in items <==> key in model.items;
      assert key in items ==> items[key].expiresAt == model.items[key].expiresAt;
      hide InStep;
      if key in items {
        var item := items[key];
        if ttl > 0 && now > item.expiresAt {
          RemoveItem(key, item);
        }
      }
    }

    /** An item that was ever issued is the resident one exactly if it has the resident one's number. */
    lemma Current(key: string, item: CacheItem<V>)
      requires Valid() && item in issued
      ensures this in Repr && lruList in Repr && lruList.Repr <= Repr
      ensures key in items <==> key in model.items
      ensures key in items ==>
        (items[key] == item <==> model.items[key].id == item.id) && LruSpec.Valid(Cfg(), Promote(model, key))
    {
      ModelValid();
      assert issued[item.id] == item;
      assert key in items ==> model.items[key].id == items[key].id && issued[items[key].id] == items[key];
      if key in items {
        PromoteValid(Cfg(), model, key);
      }
    }

    /** The write-locked half of Get for a hit. The item may be any item this cache ever made: evicted,
        deleted or replaced meanwhile, or from before a Clear. Only a resident one is moved. */
    method TouchLocked(key: string, item: CacheItem<V>)
      requires Valid() && item in issued
      modifies Repr
      ensures Valid() && model == Touch(old(model), key, item.id)
      ensures Repr == old(Repr) && issued == old(issued) && Counted()
    {
      hide InStep;
      Current(key, item);
      if key in items {
        var currentItem := items[key];
        if currentItem == item {
          MoveToFront(key, item);
        }
      }
    }

    /** Get when nothing else runs between its two critical sections. */
    method Get(key: string, t1: int, t2: int) returns (r: Option<V>)
      requires Valid()
      modifies Repr, Hooks()
      ensures Valid() && model == AfterGet(Cfg(), old(model), key, t1, t2)
      ensures r == Lookup(Cfg(), old(model), key, t1)
      ensures Repr == old(Repr) && issued == old(issued) && Counted()
    {
      var seen := ProbeLocked(key, t1);
      hide InStep;
      match seen
      case Missing =>
        return None;
      case TimedOut =>
        ExpireLocked(key, t2);
        return None;
      case Hit(flag, item) =>
        TouchLocked(key, item);
        return Some(flag);
    }

    /** The first loop of removeExpiredItems, in any map iteration order. */
    method CollectExpired(now: int) returns (keysToRemove: seq<string>)
      requires Valid() && ttl > 0
      ensures Elements(keysToRemove) == StaleKeys(Cfg(), model, now) && NoDup(keysToRemove)
    {
      keysToRemove := [];
      var rest := items.Keys;
      while rest != {}
        invariant rest <= items.Keys && NoDup(keysToRemove)
        invariant Elements(keysToRemove) == StaleKeys(Cfg(), model, now) - rest
      {
        var key :| key in rest;
        assert key !in Elements(keysToRemove);
        assert model.items[key].expiresAt == items[key].expiresAt;
        rest := rest - {key};
        if now > items[key].expiresAt {
          NoDupSnoc(keysToRemove, key);
          keysToRemove := keysToRemove + [key];
        }
      }
    }

    /** The second loop of removeExpiredItems. */
    method RemoveAll(keysToRemove: seq<string>)
      requires Valid() && NoDup(keysToRemove) && Elements(keysToRemove) <= model.items.Keys
      modifies Repr, Hooks()
      ensures Valid() && model == Remove(old(model), Elements(keysToRemove))
      ensures Repr == old(Repr) && issued == old(issued) && Counted()
    {
      RemoveNothing(model);
      assert Elements(keysToRemove[..0]) == {};
      hide InStep, Remove;
      for i := 0 to |keysToRemove|
        invariant Valid() && Repr == old(Repr) && issued == old(issued) && Counted()
        invariant model == Remove(old(model), Elements(keysToRemove[..i]))
      {
        ElementsPrefix(keysToRemove, i);
        RemoveOneMore(old(model), Elements(keysToRemove[..i]), keysToRemove[i]);
        RemoveIfPresent(keysToRemove[i]);
      }
      assert keysToRemove[..|keysToRemove|] == keysToRemove;
    }

    method RemoveExpiredItems(now: int)
      requires Valid()
      modifies Repr, Hooks()
      ensures Valid() && model == Sweep(Cfg(), old(model), now)
      ensures Repr == old(Repr) && issued == old(issued) && Counted()
    {
      if ttl <= 0 {
        SweepOff(Cfg(), model, now);
        return;
      }
      hide InStep, Remove;
      var keysToRemove := CollectExpired(now);
      RemoveAll(keysToRemove);
    }
  }
}
