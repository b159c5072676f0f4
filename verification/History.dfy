/** What an open client answers, told from the calls made so far alone: no store, no cache, no clock. */
module History {
  import opened Prelude
  import opened Flags
  import opened LruSpec
  import opened Backend
  import opened Defaults
  import opened ClientSpec
  import StoreSpec

  predicate Sets(call: Call, k: string) {
    call.SetFlag? && call.flag.key == k && ValidKey(k)
  }

  predicate Drops(call: Call, k: string) {
    call.DeleteFlag? && call.key == k
  }

  /** The last call that sets or deletes k, or -1. */
  ghost function LastChange(calls: seq<Call>, k: string): (j: int)
    ensures -1 <= j < |calls|
    ensures j >= 0 ==> Sets(calls[j], k) || Drops(calls[j], k)
    ensures forall i :: j < i < |calls| ==> !Sets(calls[i], k) && !Drops(calls[i], k)
  {
    if calls == [] then -1
    else
      var n := |calls| - 1;
      if Sets(calls[n], k) || Drops(calls[n], k) then n else LastChange(calls[..n], k)
  }

  /** The flag that k now stands for: the one of the last SetFlag that no DeleteFlag followed, or else,
      if nothing changed k, its first default. */
  ghost function Current(ds: seq<Default>, calls: seq<Call>, k: string): Option<Flag> {
    var j, d := LastChange(calls, k), FirstDefault(ds, k);
    if j >= 0 then (if calls[j].SetFlag? then Some(calls[j].flag) else None)
    else if ValidKey(k) && d >= 0 then Some(ds[d].flag)
    else None
  }

  ghost predicate StillOpen(calls: seq<Call>) {
    forall i :: 0 <= i < |calls| ==> !calls[i].Close?
  }

  /** What a call does to the table, for one key. */
  lemma CallEffect(cfg: Config, c: Client, call: Call, k: string)
    requires !c.closed && !call.Close? && StoreSpec.Keyed(c.backend.table)
    ensures var m, n := c.backend.table, AfterCall(cfg, c, call).backend.table;
      if Sets(call, k) then k in n && Content(n[k]) == Content(call.flag)
      else if Drops(call, k) then k !in n
      else (k in n <==> k in m) && (k in m ==> n[k] == m[k])
  {
    hide Put, AfterGet, WarmAll, Sweep, LruSpec.Delete;
    if call.SetFlag? {
      ValidationMeaning(call.flag.key);
    }
  }

  lemma CallSound(cfg: Config, c: Client, call: Call)
    requires !c.closed && !call.Close? && Sound(cfg, c.backend) && Feasible(c, call)
    ensures !AfterCall(cfg, c, call).closed && Sound(cfg, AfterCall(cfg, c, call).backend)
  {
    hide Put, AfterGet, WarmAll, Sweep, LruSpec.Delete;
    if RequestOf(call).Some? {
      ServeStep(cfg, c.backend, RequestOf(call).value);
      assert AfterCall(cfg, c, call).backend == Serve(cfg, c.backend, RequestOf(call).value);
    }
  }

  /** In every run the store holds exactly the current flags. */
  lemma {:induction false} TableIsHistory(cfg: Config, enabled: bool, ds: seq<Default>, calls: seq<Call>, k: string)
    requires AllFeasible(cfg, Start(cfg, enabled, ds), calls) && StillOpen(calls)
    ensures var c := AfterCalls(cfg, Start(cfg, enabled, ds), calls);
      && !c.closed && Sound(cfg, c.backend)
      && (k in c.backend.table <==> Current(ds, calls, k).Some?)
      && (k in c.backend.table ==> Content(c.backend.table[k]) == Content(Current(ds, calls, k).value))
  {
    if calls == [] {
      DefaultsFirstWins(cfg, Fresh(enabled), ds, k);
    } else {
      var n := |calls| - 1;
      TableIsHistory(cfg, enabled, ds, calls[..n], k);
      var c := AfterCalls(cfg, Start(cfg, enabled, ds), calls[..n]);
      CallSound(cfg, c, calls[n]);
      CallEffect(cfg, c, calls[n], k);
    }
  }

  /** Through any cache, at any time: IsEnabled answers with the bit of the current flag, and false for a
      key without one; GetFlag returns the current flag but for timestamps, and fails for a key without. */
  lemma AnswersAreHistory(cfg: Config, enabled: bool, ds: seq<Default>, calls: seq<Call>, c: Client, k: string,
                          t1: int, t2: int, t3: int)
    requires AllFeasible(cfg, Start(cfg, enabled, ds), calls) && StillOpen(calls) && k != ""
    requires c == AfterCalls(cfg, Start(cfg, enabled, ds), calls)
    ensures var f := Current(ds, calls, k);
      AnswerTo(cfg, c, IsEnabled(k, t1, t2, t3)) == Enabled(f.Some? && f.value.enabled, None)
    ensures match Current(ds, calls, k)
      case None => AnswerTo(cfg, c, GetFlag(k, t1, t2, t3)) == FlagIs(Err(NotFound))
      case Some(f) => SameAnswer(AnswerTo(cfg, c, GetFlag(k, t1, t2, t3)), FlagIs(Ok(f)))
  {
    TableIsHistory(cfg, enabled, ds, calls, k);
    GetAgrees(cfg, c.backend, k, t1);
  }

  /** fs has one flag for each key that has a current one, with its content, and no other. */
  ghost predicate ListsCurrent(ds: seq<Default>, calls: seq<Call>, fs: seq<Flag>) {
    && (forall i :: 0 <= i < |fs| ==>
          Current(ds, calls, fs[i].key).Some? && Content(fs[i]) == Content(Current(ds, calls, fs[i].key).value))
    && (forall k :: Current(ds, calls, k).Some? ==> exists i :: 0 <= i < |fs| && fs[i].key == k)
    && (forall i, j :: 0 <= i < j < |fs| ==> fs[i].key != fs[j].key)
  }

  /** GetAllFlags lists exactly the current flags, whatever order and times it meets. */
  lemma ListIsHistory(cfg: Config, enabled: bool, ds: seq<Default>, calls: seq<Call>, c: Client, order: seq<string>,
                      times: seq<int>)
    requires AllFeasible(cfg, Start(cfg, enabled, ds), calls) && StillOpen(calls)
    requires c == AfterCalls(cfg, Start(cfg, enabled, ds), calls) && Feasible(c, GetAllFlags(order, times))
    ensures AnswerTo(cfg, c, GetAllFlags(order, times)).Flags? && AnswerTo(cfg, c, GetAllFlags(order, times)).flags.Ok?
    ensures ListsCurrent(ds, calls, AnswerTo(cfg, c, GetAllFlags(order, times)).flags.value)
  {
    TableIsHistory(cfg, enabled, ds, calls, "");
    var m := c.backend.table;
    var fs := StoreSpec.Listing(m, order);
    forall k
      ensures k in m <==> Current(ds, calls, k).Some?
      ensures k in m ==> Content(m[k]) == Content(Current(ds, calls, k).value)
    {
      TableIsHistory(cfg, enabled, ds, calls, k);
    }
    NoDupPairs(order);
    forall k | k in m ensures exists i :: 0 <= i < |fs| && fs[i].key == k {
      assert k in Elements(order);
      assert fs[IndexOf(order, k)].key == k;
    }
    forall i | 0 <= i < |fs| ensures fs[i].key == order[i] && order[i] in m {
      assert order[i] in order;
    }
  }

  /** DeleteFlag succeeds exactly if the key has a current flag, and else reports that there is none. */
  lemma DeleteIsHistory(cfg: Config, enabled: bool, ds: seq<Default>, calls: seq<Call>, c: Client, k: string)
    requires AllFeasible(cfg, Start(cfg, enabled, ds), calls) && StillOpen(calls) && k != ""
    requires c == AfterCalls(cfg, Start(cfg, enabled, ds), calls)
    ensures AnswerTo(cfg, c, DeleteFlag(k)) == Status(if Current(ds, calls, k).Some? then None else Some(NotFound))
  {
    TableIsHistory(cfg, enabled, ds, calls, k);
  }

  /** On an open client SetFlag succeeds exactly for valid keys, and blames emptiness exactly for white space;
      every call with an empty key is refused as invalid and changes nothing. */
  lemma InputAnswers(cfg: Config, c: Client, f: Flag, t0: int, now: int, t: int, t1: int, t2: int, t3: int)
    requires !c.closed
    ensures AnswerTo(cfg, c, SetFlag(f, t0, now, t)) == Status(None) <==> ValidKey(f.key)
    ensures AnswerTo(cfg, c, SetFlag(f, t0, now, t)) == Status(Some(EmptyKey)) <==>
              forall i :: 0 <= i < |f.key| ==> IsSpace(f.key[i])
    ensures !ValidKey(f.key) ==> AfterCall(cfg, c, SetFlag(f, t0, now, t)) == c
    ensures AnswerTo(cfg, c, IsEnabled("", t1, t2, t3)) == Enabled(false, Some(InvalidFlag))
    ensures AnswerTo(cfg, c, GetFlag("", t1, t2, t3)) == FlagIs(Err(InvalidFlag))
    ensures AnswerTo(cfg, c, DeleteFlag("")) == Status(Some(InvalidFlag))
    ensures AfterCall(cfg, c, IsEnabled("", t1, t2, t3)) == AfterCall(cfg, c, GetFlag("", t1, t2, t3)) == c
    ensures AfterCall(cfg, c, DeleteFlag("")) == c
  {
    ValidationMeaning(f.key);
    TrimSpaceEmpty(f.key);
  }

  // ----- Closing -----

  /** The first Close closes the client, empties its store and touches nothing else; later ones do nothing. */
  lemma CloseEmpties(cfg: Config, c: Client)
    ensures AnswerTo(cfg, c, Close) == Status(None) && AfterCall(cfg, c, Close).closed
    ensures !c.closed ==> AfterCall(cfg, c, Close) == Client(true, c.backend.(table := map[]))
    ensures c.closed ==> AfterCall(cfg, c, Close) == c
  {
  }

  /** What a closed client answers: that it is closed, unless the input is invalid; and nothing changes. */
  lemma ClosedAnswers(cfg: Config, c: Client, call: Call)
    requires c.closed && !call.CleanupTick?
    ensures AfterCall(cfg, c, call) == c
    ensures match call
      case IsEnabled(k, _, _, _) =>
        AnswerTo(cfg, c, call) == Enabled(false, Some(if k == "" then InvalidFlag else ClientClosed))
      case GetFlag(k, _, _, _) => AnswerTo(cfg, c, call) == FlagIs(Err(if k == "" then InvalidFlag else ClientClosed))
      case SetFlag(f, _, _, _) =>
        && (ValidKey(f.key) ==> AnswerTo(cfg, c, call) == Status(Some(ClientClosed)))
        && (!ValidKey(f.key) ==> AnswerTo(cfg, c, call) in {Status(Some(EmptyKey)), Status(Some(BadCharacter))})
      case DeleteFlag(k) => AnswerTo(cfg, c, call) == Status(Some(if k == "" then InvalidFlag else ClientClosed))
      case GetAllFlags(_, _) => AnswerTo(cfg, c, call) == Flags(Err(ClientClosed))
      case _ => AnswerTo(cfg, c, call) == Status(None)
  {
    if call.SetFlag? {
      ValidationMeaning(call.flag.key);
    }
  }

  /** On an open client every call with valid input reaches the cached store, and that is all it does. */
  lemma CallsReachTheStore(cfg: Config, c: Client, call: Call)
    requires !c.closed && RequestOf(call).Some?
    ensures AfterCall(cfg, c, call) == c.(backend := Serve(cfg, c.backend, RequestOf(call).value))
    ensures match call
      case IsEnabled(k, t1, t2, t3) => RequestOf(call) == Some(RGet(k, t1, t2, t3))
      case GetFlag(k, t1, t2, t3) => RequestOf(call) == Some(RGet(k, t1, t2, t3))
      case SetFlag(f, t0, now, t) =>
        && RequestOf(call).value.RSet? && RequestOf(call).value.now == now && RequestOf(call).value.t == t
        && Content(RequestOf(call).value.flag) == Content(f) && RequestOf(call).value.flag.updatedAt == t0
        && RequestOf(call).value.flag.createdAt == (if f.createdAt == 0 then t0 else f.createdAt)
      case DeleteFlag(k) => RequestOf(call) == Some(RDelete(k))
      case GetAllFlags(order, times) => RequestOf(call) == Some(RGetAll(order, times))
      case CleanupTick(now) => RequestOf(call) == Some(RCleanup(now))
  {
  }
}
