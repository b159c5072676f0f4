/** The client as a value, and cache transparency: whatever the cache does, a client over the cached
    store answers like a client over the bare store. */
module ClientSpec {
  import opened Prelude
  import opened Flags
  import opened LruSpec
  import opened Backend
  import opened Defaults
  import StoreSpec

  datatype Client = Client(closed: bool, backend: Backend)

  /** A call with the clock readings (and the map iteration order) that it happens to meet. */
  datatype Call =
    | IsEnabled(key: string, t1: int, t2: int, t3: int)
    | GetFlag(key: string, t1: int, t2: int, t3: int)
    | SetFlag(flag: Flag, t0: int, now: int, t: int)
    | DeleteFlag(key: string)
    | GetAllFlags(order: seq<string>, times: seq<int>)
    | Close
    | CleanupTick(now: int)

  datatype Answer =
    | Enabled(on: bool, err: Option<Error>)
    | FlagIs(flag: Result<Flag, Error>)
    | Status(err: Option<Error>)
    | Flags(flags: Result<seq<Flag>, Error>)
    | Nothing

  /** Close empties the in-memory store and leaves the cache as it is. */
  function AfterClose(c: Client): Client {
    if c.closed then c else Client(true, c.backend.(table := map[]))
  }

  ghost function AfterCall(cfg: Config, c: Client, call: Call): Client {
    if c.closed && !call.CleanupTick? then c
    else match call
      case IsEnabled(key, t1, t2, t3) =>
        if key == "" then c else c.(backend := AfterBackendGet(cfg, c.backend, key, t1, t2, t3))
      case GetFlag(key, t1, t2, t3) =>
        if key == "" then c else c.(backend := AfterBackendGet(cfg, c.backend, key, t1, t2, t3))
      case SetFlag(f, t0, now, t) =>
        if Validation(f.key).Some? then c else c.(backend := AfterBackendSet(cfg, c.backend, Stamp(f, t0), now, t))
      case DeleteFlag(key) => if key == "" then c else c.(backend := AfterBackendDelete(c.backend, key))
      case GetAllFlags(order, times) => c.(backend := Serve(cfg, c.backend, RGetAll(order, times)))
      case Close => AfterClose(c)
      case CleanupTick(now) => c.(backend := AfterBackendCleanup(cfg, c.backend, now))
  }

  /** Input checks come before the closed check; only then is the store asked. */
  ghost function AnswerTo(cfg: Config, c: Client, call: Call): Answer
    requires Feasible(c, call)
  {
    match call
    case IsEnabled(key, t1, _, _) =>
      if key == "" then Enabled(false, Some(InvalidFlag))
      else if c.closed then Enabled(false, Some(ClientClosed))
      else
        var r := GetResult(cfg, c.backend, key, t1);
        Enabled(r.Ok? && r.value.enabled, None)
    case GetFlag(key, t1, _, _) =>
      if key == "" then FlagIs(Err(InvalidFlag))
      else if c.closed then FlagIs(Err(ClientClosed))
      else FlagIs(GetResult(cfg, c.backend, key, t1))
    case SetFlag(f, t0, _, _) =>
      if Validation(f.key).Some? then Status(Validation(f.key))
      else if c.closed then Status(Some(ClientClosed))
      else Status(StoreSpec.SetError(Stamp(f, t0)))
    case DeleteFlag(key) =>
      if key == "" then Status(Some(InvalidFlag))
      else if c.closed then Status(Some(ClientClosed))
      else Status(StoreSpec.DeleteError(c.backend.table, key))
    case GetAllFlags(order, _) =>
      if c.closed then Flags(Err(ClientClosed)) else Flags(Ok(StoreSpec.Listing(c.backend.table, order)))
    case Close => Status(None)
    case CleanupTick(_) => Nothing
  }

  ghost predicate Feasible(c: Client, call: Call) {
    call.GetAllFlags? && !c.closed ==>
      Possible(c.backend, RGetAll(call.order, call.times)) && forall k :: k in call.order ==> k in c.backend.table
  }

  ghost function AfterCalls(cfg: Config, c: Client, calls: seq<Call>): Client {
    if calls == [] then c else AfterCall(cfg, AfterCalls(cfg, c, calls[..|calls| - 1]), calls[|calls| - 1])
  }

  ghost predicate AllFeasible(cfg: Config, c: Client, calls: seq<Call>) {
    calls != [] ==>
      && AllFeasible(cfg, c, calls[..|calls| - 1])
      && Feasible(AfterCalls(cfg, c, calls[..|calls| - 1]), calls[|calls| - 1])
  }

  /** The same request, at possibly different times and with possibly different map iteration orders. */
  predicate SameRequest(a: Call, b: Call) {
    match a
    case IsEnabled(key, _, _, _) => b.IsEnabled? && b.key == key
    case GetFlag(key, _, _, _) => b.GetFlag? && b.key == key
    case SetFlag(f, _, _, _) => b.SetFlag? && b.flag == f
    case DeleteFlag(key) => b.DeleteFlag? && b.key == key
    case GetAllFlags(_, _) => b.GetAllFlags?
    case Close => b.Close?
    case CleanupTick(_) => b.CleanupTick?
  }

  ghost predicate SameFlags(fs: seq<Flag>, gs: seq<Flag>) {
    && |fs| == |gs|
    && (forall f :: f in fs ==> exists g :: g in gs && Content(g) == Content(f))
    && (forall g :: g in gs ==> exists f :: f in fs && Content(f) == Content(g))
  }

  /** Equal answers and equal errors; flags equal but for their timestamps. */
  ghost predicate SameAnswer(a: Answer, b: Answer) {
    match a
    case Enabled(_, _) => a == b
    case FlagIs(r) =>
      b.FlagIs? && (match r
        case Err(e) => b.flag == Err(e)
        case Ok(f) => b.flag.Ok? && Content(b.flag.value) == Content(f))
    case Status(_) => a == b
    case Flags(r) =>
      b.Flags? && (match r
        case Err(e) => b.flags == Err(e)
        case Ok(fs) => b.flags.Ok? && SameFlags(fs, b.flags.value))
    case Nothing => b.Nothing?
  }

  // ----- The simulation -----

  ghost predicate SameContents(m: StoreSpec.Table, n: StoreSpec.Table) {
    m.Keys == n.Keys && forall k :: k in m ==> Content(m[k]) == Content(n[k])
  }

  /** A client with a cache and a client without one that have the same flags in store. After Close the
      cache may hold anything: nobody reads it any more. */
  ghost predicate Simulates(cfg: Config, c: Client, bare: Client) {
    && c.closed == bare.closed
    && SameContents(c.backend.table, bare.backend.table)
    && bare.backend.cache.None?
    && StoreSpec.Keyed(bare.backend.table) && StoreSpec.Keyed(c.backend.table)
    && (!c.closed ==> Sound(cfg, c.backend))
  }

  lemma ListingsAgree(m: StoreSpec.Table, n: StoreSpec.Table, order: seq<string>, order': seq<string>)
    requires SameContents(m, n) && StoreSpec.Enumerates(order, m) && StoreSpec.Enumerates(order', n)
    ensures forall k :: k in order ==> k in m
    ensures forall k :: k in order' ==> k in n
    ensures forall f :: f in StoreSpec.Listing(m, order) ==>
              exists g :: g in StoreSpec.Listing(n, order') && Content(g) == Content(f)
    ensures |order| == |order'|
  {
    assert forall k :: k in order <==> k in Elements(order);
    assert forall k :: k in order' <==> k in Elements(order');
    ElementsSize(order);
    ElementsSize(order');
    var fs, gs := StoreSpec.Listing(m, order), StoreSpec.Listing(n, order');
    forall f | f in fs ensures exists g :: g in gs && Content(g) == Content(f) {
      var i :| 0 <= i < |fs| && fs[i] == f;
      var j := IndexOf(order', order[i]);
      assert gs[j] in gs && Content(gs[j]) == Content(f);
    }
  }

  lemma AnswersAgree(cfg: Config, c: Client, bare: Client, a: Call, b: Call)
    requires Simulates(cfg, c, bare) && SameRequest(a, b) && Feasible(c, a) && Feasible(bare, b)
    ensures SameAnswer(AnswerTo(cfg, c, a), AnswerTo(cfg, bare, b))
  {
    if !c.closed {
      match a
      case IsEnabled(key, t1, _, _) => GetAgrees(cfg, c.backend, key, t1);
      case GetFlag(key, t1, _, _) => GetAgrees(cfg, c.backend, key, t1);
      case GetAllFlags(order, _) =>
        ListingsAgree(c.backend.table, bare.backend.table, order, b.order);
        ListingsAgree(bare.backend.table, c.backend.table, b.order, order);
      case _ =>
    }
  }

  /** The backend's part of a call, for calls that reach it. */
  ghost function RequestOf(call: Call): Option<Request> {
    match call
    case IsEnabled(key, t1, t2, t3) => if key == "" then None else Some(RGet(key, t1, t2, t3))
    case GetFlag(key, t1, t2, t3) => if key == "" then None else Some(RGet(key, t1, t2, t3))
    case SetFlag(f, t0, now, t) => if Validation(f.key).Some? then None else Some(RSet(Stamp(f, t0), now, t))
    case DeleteFlag(key) => if key == "" then None else Some(RDelete(key))
    case GetAllFlags(order, times) => Some(RGetAll(order, times))
    case Close => None
    case CleanupTick(now) => Some(RCleanup(now))
  }

  lemma ServeTables(cfg: Config, b: Backend, bare: Backend, r: Request, r': Request)
    requires SameContents(b.table, bare.table)
    requires match r
      case RGet(key, _, _, _) => r'.RGet?
      case RSet(f, _, _) => r'.RSet? && r'.flag.key == f.key && Content(r'.flag) == Content(f)
      case RDelete(key) => r'.RDelete? && r'.key == key
      case RGetAll(_, _) => r'.RGetAll?
      case RCleanup(_) => r'.RCleanup?
    ensures SameContents(Serve(cfg, b, r).table, Serve(cfg, bare, r').table)
  {
    hide Put, AfterGet, WarmAll, Sweep, LruSpec.Delete;
  }

  lemma CallsSimulate(cfg: Config, c: Client, bare: Client, a: Call, b: Call)
    requires Simulates(cfg, c, bare) && SameRequest(a, b) && Feasible(c, a) && Feasible(bare, b)
    ensures Simulates(cfg, AfterCall(cfg, c, a), AfterCall(cfg, bare, b))
  {
    if (!c.closed || a.CleanupTick?) && RequestOf(a).Some? {
      var r, r' := RequestOf(a).value, RequestOf(b).value;
      assert AfterCall(cfg, c, a).backend == Serve(cfg, c.backend, r);
      assert AfterCall(cfg, bare, b).backend == Serve(cfg, bare.backend, r');
      ServeTables(cfg, c.backend, bare.backend, r, r');
      ServeStep(cfg, bare.backend, r');
      if !c.closed {
        ServeStep(cfg, c.backend, r);
      }
    }
  }

  /** The client that NewClient makes over a fresh store, after it has loaded its default flags. */
  ghost function Start(cfg: Config, enabled: bool, ds: seq<Default>): Client {
    Client(false, LoadDefaults(cfg, Fresh(enabled), ds))
  }

  /** The same default flags, loaded at possibly different times. */
  ghost predicate SameDefaults(ds: seq<Default>, ds': seq<Default>) {
    |ds| == |ds'| && forall i :: 0 <= i < |ds| ==> ds[i].flag == ds'[i].flag
  }

  lemma StartsSimulate(cfg: Config, cfg': Config, ds: seq<Default>, ds': seq<Default>)
    requires SameDefaults(ds, ds')
    ensures Simulates(cfg, Start(cfg, true, ds), Start(cfg', false, ds'))
  {
    DefaultsFirstWins(cfg, Fresh(true), ds, "");
    DefaultsFirstWins(cfg', Fresh(false), ds', "");
    var m, n := LoadDefaults(cfg, Fresh(true), ds).table, LoadDefaults(cfg', Fresh(false), ds').table;
    forall k
      ensures k in m <==> k in n
      ensures k in m ==> Content(m[k]) == Content(n[k])
    {
      DefaultsFirstWins(cfg, Fresh(true), ds, k);
      DefaultsFirstWins(cfg', Fresh(false), ds', k);
      assert FirstDefault(ds, k) == FirstDefault(ds', k);
    }
  }

  ghost predicate SameRequests(ps: seq<Call>, qs: seq<Call>) {
    |ps| == |qs| && forall i :: 0 <= i < |ps| ==> SameRequest(ps[i], qs[i])
  }

  lemma {:induction false} RunsSimulate(cfg: Config, cfg': Config, c: Client, bare: Client, ps: seq<Call>,
                                        qs: seq<Call>)
    requires Simulates(cfg, c, bare)
    requires SameRequests(ps, qs) && AllFeasible(cfg, c, ps) && AllFeasible(cfg', bare, qs)
    ensures Simulates(cfg, AfterCalls(cfg, c, ps), AfterCalls(cfg', bare, qs))
  {
    if ps != [] {
      var n := |ps| - 1;
      RunsSimulate(cfg, cfg', c, bare, ps[..n], qs[..n]);
      var c', bare' := AfterCalls(cfg, c, ps[..n]), AfterCalls(cfg', bare, qs[..n]);
      CallsSimulate(cfg, c', bare', ps[n], qs[n]);
      NoCacheNoConfig(cfg, cfg', bare', qs[n]);
    }
  }

  /** Without a cache the configuration does not matter. */
  lemma NoCacheNoConfig(cfg: Config, cfg': Config, bare: Client, call: Call)
    requires bare.backend.cache.None? && Feasible(bare, call)
    ensures AfterCall(cfg, bare, call) == AfterCall(cfg', bare, call)
    ensures AnswerTo(cfg, bare, call) == AnswerTo(cfg', bare, call)
  {
  }

  /** Cache transparency. Take any default flags and any calls, any size and ttl of the cache, any cleanup
      ticks and clock readings, in one run; in another run the same defaults and calls, at any other
      times, on a client without a cache. After any such history the next call is answered alike: the
      same IsEnabled, the same success or error, the same flags but for timestamps. */
  lemma CacheTransparency(cfg: Config, cfg': Config, ds: seq<Default>, ds': seq<Default>,
                          ps: seq<Call>, qs: seq<Call>, a: Call, b: Call)
    requires SameDefaults(ds, ds') && SameRequests(ps, qs) && SameRequest(a, b)
    requires AllFeasible(cfg, Start(cfg, true, ds), ps) && AllFeasible(cfg', Start(cfg', false, ds'), qs)
    requires Feasible(AfterCalls(cfg, Start(cfg, true, ds), ps), a)
    requires Feasible(AfterCalls(cfg', Start(cfg', false, ds'), qs), b)
    ensures SameAnswer(AnswerTo(cfg, AfterCalls(cfg, Start(cfg, true, ds), ps), a),
                       AnswerTo(cfg', AfterCalls(cfg', Start(cfg', false, ds'), qs), b))
  {
    var start, start' := Start(cfg, true, ds), Start(cfg', false, ds');
    var c, bare := AfterCalls(cfg, start, ps), AfterCalls(cfg', start', qs);
    StartsSimulate(cfg, cfg', ds, ds');
    RunsSimulate(cfg, cfg', start, start', ps, qs);
    AnswersAgree(cfg, c, bare, a, b);
    NoCacheNoConfig(cfg, cfg', bare, b);
  }

  // ----- Where transparency ends: timestamps -----

  /** After SetFlag, the flag that a hit returns has the stored timestamps exactly if both stamps read
      the same clock and the key was new or was already stored with the creation time that the flag
      brings along. (The store restores the old creation time; the cached copy does not have it.) */
  lemma CachedTimestampsExactIff(cfg: Config, b: Backend, f: Flag, t0: int, now: int, t: int, t1: int)
    requires Sound(cfg, b) && b.cache.Some? && Validation(f.key).None?
    requires StoreSpec.Valid(b.table) && t0 > 0 && (cfg.ttl > 0 ==> t1 - t <= cfg.ttl)
    ensures var n := AfterBackendSet(cfg, b, Stamp(f, t0), now, t);
      && f.key in n.table
      && GetResult(cfg, n, f.key, t1) == Ok(Stamp(f, t0))
      && (GetResult(cfg, n, f.key, t1) == Ok(n.table[f.key]) <==>
            now == t0 && (f.key in b.table ==> b.table[f.key].createdAt == Stamp(f, t0).createdAt))
  {
    hide Put, Valid, Coherent;
    PutValid(cfg, b.cache.value, f.key, Stamp(f, t0), t);
  }

  /** An update at time 20 of a flag created at time 10 reads back as created at time 20. */
  lemma CachedCreationTimeWitness(cfg: Config)
    requires cfg.ttl <= 0
    ensures var earlier := Flag("beta", false, "", 10, 10, None);
      var update := Flag("beta", true, "", 0, 0, None);
      var b := AfterBackendSet(cfg, Fresh(true), earlier, 10, 10);
      var n := AfterBackendSet(cfg, b, Stamp(update, 20), 20, 20);
      && "beta" in n.table && n.table["beta"].createdAt == 10
      && GetResult(cfg, n, "beta", 21).Ok? && GetResult(cfg, n, "beta", 21).value.createdAt == 20
  {
    hide AfterLayeredSet, Sound, StoreSpec.Valid, GetResult;
    var earlier := Flag("beta", false, "", 10, 10, None);
    ValidationMeaning("beta");
    FirstSet(cfg, earlier, 10, 10);
    var update := Flag("beta", true, "", 0, 0, None);
    CachedTimestampsExactIff(cfg, AfterBackendSet(cfg, Fresh(true), earlier, 10, 10), update, 20, 20, 20, 21);
    StoredTwice(cfg, earlier, update, 10, 20);
  }

  lemma FirstSet(cfg: Config, f: Flag, now: int, t: int)
    requires Validation(f.key).None? && now > 0
    ensures var b := AfterBackendSet(cfg, Fresh(true), f, now, t);
      Sound(cfg, b) && b.cache.Some? && StoreSpec.Valid(b.table)
  {
    SetStep(cfg, Fresh(true), f, now, t);
    StoreSpec.SetValid(map[], f, now);
  }

  lemma StoredTwice(cfg: Config, f: Flag, g: Flag, t: int, t': int)
    requires Validation(f.key).None? && f.key == g.key && f.createdAt != 0
    ensures var n := AfterBackendSet(cfg, AfterBackendSet(cfg, Fresh(true), f, t, t), Stamp(g, t'), t', t');
      f.key in n.table && n.table[f.key].createdAt == f.createdAt
  {
  }
}
