/** The client of featureflag/client/client.go on the heap. Its methods do and answer exactly what
    ClientSpec says about the calls made so far, so what is proved there holds of every run of them.
    The closed flag is read and swapped here without other threads; CloseProtocol has those. */
module Client {
  import opened Prelude
  import opened Flags
  import opened LruSpec
  import opened Backend
  import opened Defaults
  import opened ClientSpec
  import opened MemoryStore
  import opened CachedStore
  import StoreSpec

  class FlagClient {
    var closed: bool
    /** Caching disabled is a cached store with no cache. */
    const store: CachedStore
    /** The client after its defaults were loaded, and the calls since. */
    ghost var start: ClientSpec.Client
    ghost var calls: seq<Call>

    /** What the client is now; a caller's write to a cached flag shows here. */
    ghost function State(): ClientSpec.Client
      reads this, store.store, store.cache, store.metrics, store.Resident(), Behind(store.Resident())
    {
      ClientSpec.Client(closed, store.View())
    }

    ghost predicate Valid()
      reads this, store.store, store.store.Repr, store.cache, store.CacheParts(),
        store.metrics, store.metrics.Repr, store.metrics.cacheEvictions, store.Resident()
    {
      this !in store.Footprint() && store.Valid()
    }

    /** Everything the client shows comes from the calls on record: nobody has changed a cached flag. */
    ghost predicate OnRecord()
      reads this, store.store, store.cache, store.metrics, store.Resident(), Behind(store.Resident())
    {
      AllFeasible(store.Cfg(), start, calls) && State() == AfterCalls(store.Cfg(), start, calls)
    }

    /** Only the struct; NewClient loads the default flags. */
    constructor (store: CachedStore)
      requires store.Valid()
      ensures this.store == store && !closed && Valid() && store.View() == old(store.View())
      ensures start == State() && calls == []
    {
      hide CachedStore.InOrder, Behind, Shown, Look;
      this.store := store;
      closed := false;
      start, calls := ClientSpec.Client(false, store.View()), [];
    }

    /** NewClient. fs are the values of the default flags, ms are their metadata maps. */
    static method NewClient(store: CachedStore, defaults: seq<FlagStruct>, at: seq<Readings>, ghost fs: seq<Flag>,
                            ghost ms: set<object>)
      returns (c: FlagClient)
      requires store.Valid() && store.AllOutside(ms) && ValuesAre(defaults, fs, ms)
      requires |defaults| == |at| && forall i :: 0 <= i < |at| ==> at[i].now > 0
      modifies store.Footprint()
      ensures fresh(c) && c.Valid() && c.OnRecord() && c.store == store && c.State() == c.start
      ensures fresh(store.Footprint() - old(store.Footprint()))
      ensures c.start == ClientSpec.Client(false, LoadDefaults(store.Cfg(), old(store.View()), Paired(fs, at)))
      ensures c.calls == []
    {
      hide CachedStore.Valid, CachedStore.View, LoadDefaults, Paired;
      c := new FlagClient(store);
      c.LoadDefaultFlags(defaults, at, fs, ms);
      c.Begin();
    }

    ghost method Begin()
      requires Valid()
      modifies this`start, this`calls
      ensures Valid() && OnRecord() && start == State() == old(State()) && calls == []
    {
      hide CachedStore.Valid, CachedStore.View;
      NotCached();
      start, calls := State(), [];
    }

    method LoadDefaultFlags(defaults: seq<FlagStruct>, at: seq<Readings>, ghost fs: seq<Flag>, ghost ms: set<object>)
      requires store.Valid() && store.AllOutside(ms) && ValuesAre(defaults, fs, ms)
      requires |defaults| == |at| && forall i :: 0 <= i < |at| ==> at[i].now > 0
      modifies store.Footprint()
      ensures store.Valid() && fresh(store.Footprint() - old(store.Footprint()))
      ensures store.View() == LoadDefaults(store.Cfg(), old(store.View()), Paired(fs, at))
    {
      hide CachedStore.Valid, CachedStore.View, LoadOne;
      ghost var ds := Paired(fs, at);
      for i := 0 to |defaults|
        invariant store.Valid() && fresh(store.Footprint() - old(store.Footprint()))
        invariant store.AllOutside(ms) && ValuesAre(defaults, fs, ms)
        invariant store.View() == LoadDefaults(store.Cfg(), old(store.View()), ds[..i])
      {
        assert ds[..i + 1][..i] == ds[..i];
        LoadDefaultFlag(defaults[i], at[i], ms);
      }
      assert ds[..|defaults|] == ds;
    }

    /** One round: look the flag up, and set it if there is none. */
    method LoadDefaultFlag(flag: FlagStruct, at: Readings, ghost ms: set<object>)
      requires store.Valid() && store.AllOutside(ms) && (flag.metadata != null ==> flag.metadata in ms) && at.now > 0
      modifies store.Footprint()
      ensures store.Valid() && fresh(store.Footprint() - old(store.Footprint()))
      ensures store.View() == LoadOne(store.Cfg(), old(store.View()), Default(old(flag.Value()), at))
    {
      hide CachedStore.Valid, CachedStore.View, AfterBackendGet, AfterBackendSet;
      var existing := store.Get(flag.key, at.t1, at.t2, at.t3);
      if existing.Err? && !IsNotFoundError(existing.error) {
        return;
      }
      if existing.Err? {
        ghost var kept;
        var err;
        err, kept := store.Set(flag.Stamped(at.t0), at.now, at.t);
      }
    }

    /** The call was answered as the client was, left the client as it should, and went on record. */
    twostate predicate Did(call: Call, answer: Answer)
      reads this, store.store, store.cache, store.metrics, store.Resident(), Behind(store.Resident())
    {
      && calls == old(calls) + [call] && start == old(start)
      && Feasible(old(State()), call)
      && answer == AnswerTo(store.Cfg(), old(State()), call)
      && State() == AfterCall(store.Cfg(), old(State()), call)
      && (old(OnRecord()) ==> OnRecord())
    }

    /** The client is no flag. */
    lemma NotCached()
      ensures this !in (set p | p in store.Resident() :: p as object) && this !in Behind(store.Resident())
    {
    }

    ghost method Record(call: Call, before: ClientSpec.Client)
      requires Valid() && Feasible(before, call) && State() == AfterCall(store.Cfg(), before, call)
      modifies this`calls
      ensures Valid() && State() == old(State()) && calls == old(calls) + [call]
      ensures AllFeasible(store.Cfg(), start, old(calls)) && before == AfterCalls(store.Cfg(), start, old(calls))
              ==> OnRecord()
    {
      hide CachedStore.Valid, CachedStore.View, AfterCall, Feasible;
      NotCached();
      calls := calls + [call];
      assert calls[..|calls| - 1] == old(calls);
    }

    method IsEnabled(key: string, t1: int, t2: int, t3: int) returns (on: bool, err: Option<Error>)
      requires Valid()
      modifies this`calls, store.Footprint()
      ensures Valid() && fresh(store.Footprint() - old(store.Footprint()))
      ensures Did(ClientSpec.IsEnabled(key, t1, t2, t3), Enabled(on, err))
      ensures old(closed) && key != "" ==> !on && err == Some(ClientClosed)
    {
      hide CachedStore.Valid;
      ghost var before := State();
      on, err := false, None;
      if key == "" {
        err := Some(InvalidFlag);
      } else if closed {
        err := Some(ClientClosed);
      } else {
        var flag := store.Get(key, t1, t2, t3);
        if flag.Ok? {
          on := flag.value.s.enabled;
        }
      }
      Record(ClientSpec.IsEnabled(key, t1, t2, t3), before);
    }

    /** The flag behind the pointer is the answer's. */
    method GetFlag(key: string, t1: int, t2: int, t3: int)
      returns (r: Result<FeatureFlag, Error>, ghost answer: Result<Flag, Error>)
      requires Valid()
      modifies this`calls, store.Footprint()
      ensures Valid() && fresh(store.Footprint() - old(store.Footprint()))
      ensures Did(ClientSpec.GetFlag(key, t1, t2, t3), FlagIs(answer))
      ensures match answer
        case Err(e) => r == Err(e)
        case Ok(f) => r.Ok? && store.Free(r.value) && r.value.Value() == f
      ensures r.Ok? ==> Parts(r.value) <= old(Behind(store.Resident())) || fresh(Parts(r.value))
      ensures old(closed) && key != "" ==> r == Err(ClientClosed)
    {
      hide CachedStore.Valid, CachedStore.View, AfterBackendGet, GetResult;
      ghost var before := State();
      if key == "" {
        r, answer := Err(InvalidFlag), Err(InvalidFlag);
      } else if closed {
        r, answer := Err(ClientClosed), Err(ClientClosed);
      } else {
        answer := GetResult(store.Cfg(), store.View(), key, t1);
        r := store.Get(key, t1, t2, t3);
      }
      Record(ClientSpec.GetFlag(key, t1, t2, t3), before);
    }

    /** Newly cached pointers are new, and have the struct's metadata map. */
    twostate predicate CachesOnly(flag: FlagStruct)
      reads store.cache, store.Resident()
    {
      forall p :: p in store.Resident() ==> p in old(store.Resident()) || (fresh(p) && p.s.metadata == flag.metadata)
    }

    /** The cache then holds a copy of the caller's struct, with the caller's own metadata map. */
    method StampAndSet(flag: FlagStruct, t0: int, now: int, t: int) returns (err: Option<Error>)
      requires store.Valid() && now > 0 && store.Foreign(flag)
      modifies store.Footprint()
      ensures store.Valid() && fresh(store.Footprint() - old(store.Footprint()))
      ensures err == StoreSpec.SetError(Stamp(old(flag.Value()), t0))
      ensures store.View() == AfterBackendSet(store.Cfg(), old(store.View()), Stamp(old(flag.Value()), t0), now, t)
      ensures err.None? && store.cache != null ==> store.Holds(flag.key, flag.Stamped(t0), t)
      ensures CachesOnly(flag)
    {
      hide CachedStore.InOrder;
      ghost var kept;
      err, kept := store.Set(flag.Stamped(t0), now, t);
    }

    /** Validation touches nothing. */
    method Check(key: string) returns (err: Option<Error>)
      requires Valid()
      ensures Valid() && State() == old(State()) && store.Footprint() == old(store.Footprint())
      ensures err == Validation(key)
    {
      hide CachedStore.InOrder, CachedStore.View;
      err := Validate(key);
    }

    method SetFlag(flag: FlagStruct, t0: int, now: int, t: int) returns (err: Option<Error>)
      requires Valid() && now > 0 && store.Foreign(flag)
      modifies this`calls, store.Footprint()
      ensures Valid() && fresh(store.Footprint() - old(store.Footprint()))
      ensures Did(ClientSpec.SetFlag(old(flag.Value()), t0, now, t), Status(err))
      ensures err.None? && store.cache != null ==> store.Holds(flag.key, flag.Stamped(t0), t)
      ensures CachesOnly(flag)
      ensures old(closed) && ValidKey(flag.key) ==> err == Some(ClientClosed)
    {
      hide CachedStore.Valid, CachedStore.View, AfterBackendSet, Behind, Pointers, CachedStore.Resident;
      ghost var before, value := State(), flag.Value();
      ValidationMeaning(flag.key);
      err := Check(flag.key);
      if err.None? {
        if closed {
          err := Some(ClientClosed);
        } else {
          err := StampAndSet(flag, t0, now, t);
        }
      }
      Record(ClientSpec.SetFlag(value, t0, now, t), before);
    }

    method DeleteFlag(key: string) returns (err: Option<Error>)
      requires Valid()
      modifies this`calls, store.Footprint()
      ensures Valid() && fresh(store.Footprint() - old(store.Footprint()))
      ensures Did(ClientSpec.DeleteFlag(key), Status(err))
      ensures old(closed) && key != "" ==> err == Some(ClientClosed)
    {
      hide CachedStore.Valid;
      ghost var before := State();
      if key == "" {
        err := Some(InvalidFlag);
      } else if closed {
        err := Some(ClientClosed);
      } else {
        err := store.Delete(key);
      }
      Record(ClientSpec.DeleteFlag(key), before);
    }

    /** The structs have the values of the answer, in the order that the map iteration happened to take. */
    method GetAllFlags(times: seq<int>)
      returns (r: Result<seq<FlagStruct>, Error>, ghost answer: Result<seq<Flag>, Error>, ghost order: seq<string>,
               ghost ms: set<object>)
      requires Valid() && |store.store.table| <= |times|
      modifies this`calls, store.Footprint()
      ensures Valid() && fresh(store.Footprint() - old(store.Footprint()))
      ensures Did(ClientSpec.GetAllFlags(order, times), Flags(answer))
      ensures match answer
        case Err(e) => r == Err(e)
        case Ok(fs) => r.Ok? && ValuesAre(r.value, fs, ms) && store.AllOutside(ms)
      ensures old(closed) ==> r == Err(ClientClosed)
    {
      hide CachedStore.Valid, CachedStore.View, AfterBackendGetAll;
      ghost var before := State();
      if closed {
        r, answer, order, ms := Err(ClientClosed), Err(ClientClosed), [], {};
      } else {
        var all;
        ghost var fs, ps;
        store.ViewTable();
        all, order, fs, ms, ps := store.GetAll(times);
        r, answer := Ok(all), Ok(fs);
      }
      Record(ClientSpec.GetAllFlags(order, times), before);
    }

    /** Only the first Close reaches the store. */
    method Close()
      requires Valid()
      modifies this`calls, this`closed, store.Footprint()
      ensures Valid() && closed && store.Footprint() == old(store.Footprint())
      ensures Did(ClientSpec.Close, Status(None))
      ensures !old(closed) ==> store.store.table == map[]
    {
      hide CachedStore.Valid, CachedStore.View;
      ghost var before := State();
      NotCached();
      if !closed {
        closed := true;
        store.Close();
      }
      Record(ClientSpec.Close, before);
    }

    /** The cache's ticker fires. */
    method Tick(now: int)
      requires Valid()
      modifies this`calls, store.Footprint()
      ensures Valid() && store.Footprint() == old(store.Footprint())
      ensures Did(CleanupTick(now), Nothing)
    {
      hide CachedStore.Valid, CachedStore.View, AfterBackendCleanup;
      ghost var before := State();
      store.CleanUp(now);
      Record(CleanupTick(now), before);
    }
  }

  /** Cache transparency on the heap: a client with a cache of any size and ttl and a client without one
      that loaded the same defaults and met the same calls answer the next call alike. */
  lemma TransparentOnTheHeap(c: FlagClient, bare: FlagClient, ds: seq<Default>, ds': seq<Default>, a: Call, b: Call)
    requires c.OnRecord() && c.store.cache != null && bare.OnRecord() && bare.store.cache == null
    requires c.start == Start(c.store.Cfg(), true, ds) && bare.start == Start(bare.store.Cfg(), false, ds')
    requires SameDefaults(ds, ds') && SameRequests(c.calls, bare.calls) && SameRequest(a, b)
    requires Feasible(c.State(), a) && Feasible(bare.State(), b)
    ensures SameAnswer(AnswerTo(c.store.Cfg(), c.State(), a), AnswerTo(bare.store.Cfg(), bare.State(), b))
  {
    CacheTransparency(c.store.Cfg(), bare.store.Cfg(), ds, ds', c.calls, bare.calls, a, b);
  }

  /** A new store, a cached store over it, and a client over that, without default flags. */
  method NewOverNewStore(enabled: bool, maxSize: int, ttl: int) returns (c: FlagClient)
    ensures fresh(Own(c)) && c.Valid() && c.OnRecord() && (c.store.cache != null <==> enabled)
    ensures c.start == Start(c.store.Cfg(), enabled, []) && c.calls == [] && c.store.Resident() == {}
    ensures enabled ==> c.store.Cfg() == Config(maxSize, ttl)
  {
    hide CachedStore.Valid, CachedStore.View, FlagClient.OnRecord;
    var store := new Store();
    var cached := new CachedStore(store, enabled, maxSize, ttl);
    c := FlagClient.NewClient(cached, [], [], [], {});
    assert c.State().backend == Over(map[], enabled);
    NothingShown(c.store);
  }

  lemma NothingShown(cs: CachedStore)
    requires cs.View().cache.Some? ==> cs.View().cache.value.items == map[]
    ensures cs.Resident() == {}
  {
    if cs.cache != null {
      assert cs.cache.model.items.Keys == cs.View().cache.value.items.Keys;
    }
  }

  /** The same, after one SetFlag. What the cache then has is new, but for the caller's metadata map. */
  method NewWithFlag(enabled: bool, maxSize: int, ttl: int, flag: FlagStruct, t0: int, now: int, t: int)
    returns (c: FlagClient)
    requires now > 0
    ensures fresh(Own(c)) && c.Valid() && c.OnRecord() && (c.store.cache != null <==> enabled)
    ensures c.start == Start(c.store.Cfg(), enabled, []) && c.calls == [ClientSpec.SetFlag(flag.Value(), t0, now, t)]
    ensures enabled ==> c.store.Cfg() == Config(maxSize, ttl)
    ensures forall o :: o in Behind(c.store.Resident()) ==> fresh(o) || o == flag.metadata
  {
    hide FlagClient.Valid, FlagClient.OnRecord, FlagClient.State, AfterCall, AnswerTo, Feasible, CachedStore.InOrder;
    c := NewOverNewStore(enabled, maxSize, ttl);
    var err := c.SetFlag(flag, t0, now, t);
  }

  lemma BareState(bare: FlagClient)
    requires bare.store.cache == null
    ensures bare.State() == ClientSpec.Client(bare.closed, Backend(bare.store.store.table, None, bare.store.Tally()))
  {
  }

  /** Making another client leaves one alone; it has no cache. */
  method NewBeside(bare: FlagClient, enabled: bool, maxSize: int, ttl: int, flag: FlagStruct, t0: int, now: int, t: int)
    returns (c: FlagClient)
    requires bare.Valid() && bare.store.cache == null && now > 0
    requires flag.metadata != null ==> flag.metadata !in Own(bare)
    ensures bare.Valid() && bare.State() == old(bare.State()) && Own(bare) == old(Own(bare))
    ensures bare.start == old(bare.start) && bare.calls == old(bare.calls)
    ensures c.Valid() && c.OnRecord() && (c.store.cache != null <==> enabled) && fresh(Own(c))
    ensures c.start == Start(c.store.Cfg(), enabled, []) && c.calls == [ClientSpec.SetFlag(flag.Value(), t0, now, t)]
    ensures Reach(c) !! Own(bare)
  {
    hide CachedStore.InOrder, CachedStore.View, FlagClient.OnRecord, FlagClient.State, Behind, Pointers;
    BareState(bare);
    c := NewWithFlag(enabled, maxSize, ttl, flag, t0, now, t);
    BareState(bare);
  }

  /** A client with a cache of any size and ttl and one without, after the same SetFlag. */
  method NewPair(maxSize: int, ttl: int, flag: FlagStruct, t0: int, now: int, t: int)
    returns (c: FlagClient, bare: FlagClient)
    requires now > 0
    ensures c.Valid() && c.OnRecord() && c.store.cache != null && c.start == Start(c.store.Cfg(), true, [])
    ensures bare.Valid() && bare.OnRecord() && bare.store.cache == null
    ensures bare.start == Start(bare.store.Cfg(), false, [])
    ensures c.calls == bare.calls && Reach(c) !! Own(bare) && fresh(Own(c)) && fresh(Own(bare))
  {
    hide FlagClient.Valid, FlagClient.State, CachedStore.InOrder, AfterCalls, Reach;
    bare := NewWithFlag(false, 0, 0, flag, t0, now, t);
    c := NewBeside(bare, true, maxSize, ttl, flag, t0, now, t);
  }

  /** GetFlag on a client that shares nothing with another one, which has no cache. */
  method GetBeside(c: FlagClient, bare: FlagClient, key: string, t1: int, t2: int, t3: int)
    returns (r: Result<FeatureFlag, Error>, ghost answer: Result<Flag, Error>)
    requires c.Valid() && bare.Valid() && bare.store.cache == null && Reach(c) !! Own(bare)
    modifies Own(c)
    ensures bare.Valid() && bare.State() == old(bare.State()) && Own(bare) == old(Own(bare))
    ensures FlagIs(answer) == AnswerTo(c.store.Cfg(), old(c.State()), ClientSpec.GetFlag(key, t1, t2, t3))
    ensures match answer case Err(e) => r == Err(e) case Ok(f) => r.Ok? && r.value.Value() == f
    ensures r.Ok? ==> Parts(r.value) !! Own(bare)
  {
    hide CachedStore.InOrder, CachedStore.View, Behind, Pointers;
    hide FlagClient.OnRecord, FlagClient.State, AfterCall, AnswerTo;
    BareState(bare);
    r, answer := c.GetFlag(key, t1, t2, t3);
    BareState(bare);
  }

  /** The two of NewPair answer any GetFlag alike. */
  method SideBySide(maxSize: int, ttl: int, flag: FlagStruct, t0: int, now: int, t: int, key: string, t1: int,
                    t2: int, t3: int)
    returns (r: Result<FeatureFlag, Error>, q: Result<FeatureFlag, Error>)
    requires now > 0
    ensures match r
      case Err(e) => q == Err(e)
      case Ok(p) => q.Ok? && Content(q.value.Value()) == Content(p.Value())
  {
    hide FlagClient.Valid, FlagClient.State, FlagClient.OnRecord, AnswerTo, CachedStore.Footprint, Reach;
    var c, bare := NewPair(maxSize, ttl, flag, t0, now, t);
    ghost var call := ClientSpec.GetFlag(key, t1, t2, t3);
    TransparentOnTheHeap(c, bare, [], [], call, call);
    ghost var a, b;
    r, a := GetBeside(c, bare, key, t1, t2, t3);
    q, b := bare.GetFlag(key, t1, t2, t3);
  }

  /** What a client's calls may write to, and the flags in its cache. */
  ghost function Reach(c: FlagClient): set<object>
    reads c.store.store, c.store.cache, c.store.metrics, c.store.Resident()
  {
    Own(c) + Behind(c.store.Resident())
  }

  /** What a client's calls may write to. */
  ghost function Own(c: FlagClient): set<object>
    reads c.store.store, c.store.cache, c.store.metrics
  {
    {c} + c.store.Footprint()
  }

  function Paired(fs: seq<Flag>, at: seq<Readings>): (ds: seq<Default>)
    requires |fs| == |at|
  {
    seq(|fs|, i requires 0 <= i < |fs| => Default(fs[i], at[i]))
  }
}
