/** The in-memory store as a table of flag values, and what its timestamps say about its history. */
module StoreSpec {
  import opened Prelude
  import opened Flags

  type Table = map<string, Flag>

  /** Every flag sits under its own valid key. */
  ghost predicate Keyed(m: Table) {
    forall k :: k in m ==> m[k].key == k && ValidKey(k)
  }

  ghost predicate Valid(m: Table) {
    Keyed(m) && forall k :: k in m ==> m[k].createdAt != 0
  }

  function Get(m: Table, key: string): Result<Flag, Error> {
    if key == "" then Err(InvalidFlag)
    else if key !in m then Err(NotFound)
    else Ok(m[key])
  }

  function SetError(f: Flag): Option<Error> {
    Validation(f.key)
  }

  /** What Set stores: the old creation time if there is one, and a new stamp. */
  function Stored(m: Table, f: Flag, now: int): Flag {
    Stamp(if f.key in m then f.(createdAt := m[f.key].createdAt) else f, now)
  }

  function Set(m: Table, f: Flag, now: int): Table {
    if SetError(f).Some? then m else m[f.key := Stored(m, f, now)]
  }

  function DeleteError(m: Table, key: string): Option<Error> {
    if key == "" then Some(InvalidFlag) else if key !in m then Some(NotFound) else None
  }

  function Delete(m: Table, key: string): Table {
    if DeleteError(m, key).Some? then m else m - {key}
  }

  /** order is a map iteration order of the table: every key once. */
  ghost predicate Enumerates(order: seq<string>, m: Table) {
    NoDup(order) && Elements(order) == m.Keys
  }

  /** The flags in that order. */
  function Listing(m: Table, order: seq<string>): (fs: seq<Flag>)
    requires forall k :: k in order ==> k in m
    ensures |fs| == |order| && forall i :: 0 <= i < |fs| ==> fs[i] == m[order[i]]
  {
    seq(|order|, i requires 0 <= i < |order| => m[order[i]])
  }

  lemma NoEmptyKey(m: Table)
    requires Valid(m)
    ensures "" !in m
  {
  }

  lemma SetNothing(m: Table, f: Flag, now: int)
    ensures SetError(f).Some? ==> Set(m, f, now) == m
  {
  }

  lemma SetKeyed(m: Table, f: Flag, now: int)
    requires Keyed(m)
    ensures Keyed(Set(m, f, now))
  {
    ValidationMeaning(f.key);
  }

  lemma InstallValid(m: Table, key: string, f: Flag)
    requires Valid(m) && f.key == key && ValidKey(key) && f.createdAt != 0
    ensures Valid(m[key := f])
  {
  }

  lemma DeleteValid(m: Table, key: string)
    requires Valid(m)
    ensures Valid(Delete(m, key))
  {
  }

  lemma SetValid(m: Table, f: Flag, now: int)
    requires Valid(m) && now != 0
    ensures Valid(Set(m, f, now))
  {
    ValidationMeaning(f.key);
  }

  // ----- History -----

  datatype StoreOp = SetOp(flag: Flag, now: int) | DeleteOp(key: string) | CloseOp

  function After(m: Table, op: StoreOp): Table {
    match op
    case SetOp(f, now) => Set(m, f, now)
    case DeleteOp(key) => Delete(m, key)
    case CloseOp => map[]
  }

  function Replay(h: seq<StoreOp>): Table {
    if h == [] then map[] else After(Replay(h[..|h| - 1]), h[|h| - 1])
  }

  /** The latest clock reading so far. */
  function ClockOf(h: seq<StoreOp>): int {
    if h == [] then 0 else if h[|h| - 1].SetOp? then h[|h| - 1].now else ClockOf(h[..|h| - 1])
  }

  /** The clock never reads zero and never runs backwards. */
  ghost predicate Clocked(h: seq<StoreOp>) {
    h == [] || (
      var op := h[|h| - 1];
      Clocked(h[..|h| - 1]) && (op.SetOp? ==> op.now > 0 && op.now >= ClockOf(h[..|h| - 1])))
  }

  lemma OneMore(h: seq<StoreOp>, op: StoreOp)
    ensures Replay(h + [op]) == After(Replay(h), op)
    ensures Clocked(h + [op]) <==> Clocked(h) && (op.SetOp? ==> op.now > 0 && op.now >= ClockOf(h))
  {
    assert (h + [op])[..|h|] == h;
  }

  predicate Writes(op: StoreOp, k: string) {
    op.SetOp? && op.flag.key == k && ValidKey(k)
  }

  predicate Drops(op: StoreOp, k: string) {
    op.CloseOp? || (op.DeleteOp? && op.key == k)
  }

  lemma {:induction false} ReplayValid(h: seq<StoreOp>)
    requires Clocked(h)
    ensures Valid(Replay(h)) && forall k :: k in Replay(h) ==> Replay(h)[k].updatedAt <= ClockOf(h)
  {
    if h != [] {
      ReplayValid(h[..|h| - 1]);
      var op := h[|h| - 1];
      if op.SetOp? {
        SetValid(Replay(h[..|h| - 1]), op.flag, op.now);
      }
    }
  }

  /** The last write of k that nothing dropped since, or -1. */
  ghost function LastSet(h: seq<StoreOp>, k: string): (j: int)
    ensures -1 <= j < |h| && (j >= 0 ==> Writes(h[j], k))
  {
    if h == [] then -1
    else if Writes(h[|h| - 1], k) then |h| - 1
    else if Drops(h[|h| - 1], k) then -1
    else LastSet(h[..|h| - 1], k)
  }

  /** The first write of k since it was last absent, or -1. */
  ghost function FirstSet(h: seq<StoreOp>, k: string): (j: int)
    ensures -1 <= j < |h| && (j >= 0 ==> Writes(h[j], k))
    ensures j >= 0 <==> LastSet(h, k) >= 0
  {
    if h == [] then -1
    else
      var init := h[..|h| - 1];
      if Writes(h[|h| - 1], k) then (if LastSet(init, k) == -1 then |h| - 1 else FirstSet(init, k))
      else if Drops(h[|h| - 1], k) then -1
      else FirstSet(init, k)
  }

  /** Nothing writes k after its last write or drops it after its first, and before the first write of
      the span k was absent. */
  lemma {:induction false} SpanMeaning(h: seq<StoreOp>, k: string)
    ensures LastSet(h, k) >= 0 ==>
      && LastSet(h[..FirstSet(h, k)], k) == -1
      && (forall i :: FirstSet(h, k) <= i < |h| ==> !Drops(h[i], k))
      && (forall i :: LastSet(h, k) < i < |h| ==> !Writes(h[i], k))
  {
    if h != [] && LastSet(h, k) >= 0 {
      var n := |h| - 1;
      SpanMeaning(h[..n], k);
      if FirstSet(h, k) < n {
        assert h[..n][..FirstSet(h, k)] == h[..FirstSet(h, k)];
      }
    }
  }

  /** In every reachable state a key is present exactly if it was written and not dropped since; it then
      holds the content of its last write, was updated at that write's clock, and was created by the
      first write of the present span: at the time that write brought along, or at its clock. */
  lemma {:induction false} TimestampHistory(h: seq<StoreOp>, k: string)
    requires Clocked(h)
    ensures var m, last, first := Replay(h), LastSet(h, k), FirstSet(h, k);
      && (k in m <==> last >= 0)
      && (k in m ==>
            && Content(m[k]) == Content(h[last].flag)
            && m[k].updatedAt == h[last].now
            && m[k].createdAt == if h[first].flag.createdAt != 0 then h[first].flag.createdAt else h[first].now)
  {
    if h != [] {
      var n := |h| - 1;
      TimestampHistory(h[..n], k);
      ReplayValid(h[..n]);
      if h[n].SetOp? {
        ValidationMeaning(h[n].flag.key);
      }
    }
  }

  /** As long as nothing drops k, its creation time stays and its update time never decreases. */
  lemma {:induction false} TimestampsOverASpan(h: seq<StoreOp>, i: nat, k: string)
    requires Clocked(h) && i <= |h| && k in Replay(h[..i])
    requires forall j :: i <= j < |h| ==> !Drops(h[j], k)
    ensures k in Replay(h)
    ensures Replay(h)[k].createdAt == Replay(h[..i])[k].createdAt
    ensures Replay(h)[k].updatedAt >= Replay(h[..i])[k].updatedAt
  {
    if i == |h| {
      assert h[..i] == h;
    } else {
      var init := h[..|h| - 1];
      assert init[..i] == h[..i];
      TimestampsOverASpan(init, i, k);
      ReplayValid(init);
      assert !Drops(h[|h| - 1], k);
    }
  }

  /** What the store answers, told from its history: a Get fails for an empty key and for a key that was not
      written or was dropped since, and a Delete fails for exactly the same keys, in the same way. */
  lemma AnswersAreHistory(h: seq<StoreOp>, k: string)
    requires Clocked(h)
    ensures k == "" ==> Get(Replay(h), k) == Err(InvalidFlag) && DeleteError(Replay(h), k) == Some(InvalidFlag)
    ensures k != "" && LastSet(h, k) < 0 ==>
              Get(Replay(h), k) == Err(NotFound) && DeleteError(Replay(h), k) == Some(NotFound)
    ensures k != "" && LastSet(h, k) >= 0 ==>
              && Get(Replay(h), k).Ok? && Content(Get(Replay(h), k).value) == Content(h[LastSet(h, k)].flag)
              && DeleteError(Replay(h), k) == None
  {
    TimestampHistory(h, k);
  }
}
