/** History on the heap: what the methods of an open client return, told from the calls on its record. */
module RecordedAnswers {
  import opened Prelude
  import opened Flags
  import opened Defaults
  import opened ClientSpec
  import opened MemoryStore
  import opened CachedStore
  import opened Client
  import opened History
  import StoreSpec

  /** An open client that loaded these defaults into a new store, with all its calls on record. */
  ghost predicate OpenSince(c: FlagClient, enabled: bool, ds: seq<Default>)
    reads c, c.store.store, c.store.store.Repr, c.store.cache, c.store.CacheParts(), c.store.metrics,
      c.store.metrics.Repr, c.store.metrics.cacheEvictions, c.store.Resident(), Behind(c.store.Resident())
  {
    && c.Valid() && c.OnRecord() && !c.closed && StillOpen(c.calls)
    && c.start == Start(c.store.Cfg(), enabled, ds)
  }

  method AskEnabled(c: FlagClient, key: string, t1: int, t2: int, t3: int, ghost enabled: bool, ghost ds: seq<Default>)
    returns (on: bool, err: Option<Error>)
    requires OpenSince(c, enabled, ds) && key != ""
    modifies c, c.store.Footprint()
    ensures var f := Current(ds, old(c.calls), key); on == (f.Some? && f.value.enabled) && err == None
  {
    hide FlagClient.Valid, AfterCall, AnswerTo, FlagClient.State;
    AnswersAreHistory(c.store.Cfg(), enabled, ds, c.calls, c.State(), key, t1, t2, t3);
    on, err := c.IsEnabled(key, t1, t2, t3);
  }

  method AskFlag(c: FlagClient, key: string, t1: int, t2: int, t3: int, ghost enabled: bool, ghost ds: seq<Default>)
    returns (r: Result<FeatureFlag, Error>)
    requires OpenSince(c, enabled, ds) && key != ""
    modifies c, c.store.Footprint()
    ensures match Current(ds, old(c.calls), key)
      case None => r == Err(NotFound)
      case Some(f) => r.Ok? && Content(r.value.Value()) == Content(f)
  {
    hide FlagClient.Valid, AfterCall, AnswerTo, FlagClient.State;
    AnswersAreHistory(c.store.Cfg(), enabled, ds, c.calls, c.State(), key, t1, t2, t3);
    ghost var answer;
    r, answer := c.GetFlag(key, t1, t2, t3);
  }

  method AskDelete(c: FlagClient, key: string, ghost enabled: bool, ghost ds: seq<Default>) returns (err: Option<Error>)
    requires OpenSince(c, enabled, ds) && key != ""
    modifies c, c.store.Footprint()
    ensures err == if Current(ds, old(c.calls), key).Some? then None else Some(NotFound)
  {
    hide FlagClient.Valid, AfterCall, AnswerTo, FlagClient.State;
    DeleteIsHistory(c.store.Cfg(), enabled, ds, c.calls, c.State(), key);
    err := c.DeleteFlag(key);
  }

  /** The list has exactly one flag for each key with a current one, with its content. */
  method AskAll(c: FlagClient, times: seq<int>, ghost enabled: bool, ghost ds: seq<Default>)
    returns (all: seq<FlagStruct>, ghost fs: seq<Flag>, ghost ms: set<object>)
    requires OpenSince(c, enabled, ds) && |c.store.store.table| <= |times|
    modifies c, c.store.Footprint()
    ensures ValuesAre(all, fs, ms) && ListsCurrent(ds, old(c.calls), fs)
  {
    hide FlagClient.Valid, AfterCall, AnswerTo, FlagClient.State, ListsCurrent, ValuesAre;
    ghost var before, calls := c.State(), c.calls;
    var r;
    ghost var answer, order;
    r, answer, order, ms := c.GetAllFlags(times);
    ListIsHistory(c.store.Cfg(), enabled, ds, calls, before, order, times);
    all, fs := r.value, answer.value;
  }
}
