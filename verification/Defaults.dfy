/** loadDefaultFlags as a value computation: a first-wins fill of the store. */
module Defaults {
  import opened Prelude
  import opened Flags
  import opened LruSpec
  import opened Backend
  import StoreSpec

  /** The clock readings of one round: three of Get, the client's stamp, the store's stamp, the cache's deadline. */
  datatype Readings = Readings(t1: int, t2: int, t3: int, t0: int, now: int, t: int)

  datatype Default = Default(flag: Flag, at: Readings)

  /** One round of loadDefaultFlags. */
  function LoadOne(cfg: Config, b: Backend, d: Default): Backend {
    var r := GetResult(cfg, b, d.flag.key, d.at.t1);
    var looked := AfterBackendGet(cfg, b, d.flag.key, d.at.t1, d.at.t2, d.at.t3);
    if r.Err? && IsNotFoundError(r.error)
    then AfterBackendSet(cfg, looked, Stamp(d.flag, d.at.t0), d.at.now, d.at.t)
    else looked
  }

  function LoadDefaults(cfg: Config, b: Backend, ds: seq<Default>): Backend {
    if ds == [] then b else LoadOne(cfg, LoadDefaults(cfg, b, ds[..|ds| - 1]), ds[|ds| - 1])
  }

  /** The first default with key k, or -1. */
  ghost function FirstDefault(ds: seq<Default>, k: string): (j: int)
    ensures -1 <= j < |ds|
    ensures j >= 0 ==> ds[j].flag.key == k && forall i :: 0 <= i < j ==> ds[i].flag.key != k
    ensures j == -1 ==> forall i :: 0 <= i < |ds| ==> ds[i].flag.key != k
  {
    if ds == [] then -1
    else
      var j := FirstDefault(ds[..|ds| - 1], k);
      assert forall i :: 0 <= i < |ds| - 1 ==> ds[..|ds| - 1][i] == ds[i];
      if j >= 0 then j else if ds[|ds| - 1].flag.key == k then |ds| - 1 else -1
  }

  lemma LoadOneStep(cfg: Config, b: Backend, d: Default)
    requires Sound(cfg, b)
    ensures Sound(cfg, LoadOne(cfg, b, d)) && LoadOne(cfg, b, d).cache.Some? == b.cache.Some?
    ensures var k := d.flag.key;
      LoadOne(cfg, b, d).table ==
        if k in b.table || !ValidKey(k) then b.table else b.table[k := Stamp(Stamp(d.flag, d.at.t0), d.at.now)]
  {
    var k := d.flag.key;
    ValidationMeaning(k);
    GetAgrees(cfg, b, k, d.at.t1);
    LookUpKeeps(cfg, b, k, d.at.t1, d.at.t2, d.at.t3);
    var looked := AfterBackendGet(cfg, b, k, d.at.t1, d.at.t2, d.at.t3);
    if StoreSpec.Get(b.table, k) == Err(NotFound) {
      ServeStep(cfg, looked, RSet(Stamp(d.flag, d.at.t0), d.at.now, d.at.t));
      assert LoadOne(cfg, b, d) == Serve(cfg, looked, RSet(Stamp(d.flag, d.at.t0), d.at.now, d.at.t));
    } else {
      assert LoadOne(cfg, b, d) == looked;
    }
  }

  /** A round looks the key up; only if the store does not have it, and it is not empty, it also sets the flag:
      stamped, through the cached store. */
  lemma LoadOneMeaning(cfg: Config, b: Backend, d: Default)
    requires Sound(cfg, b)
    ensures var k := d.flag.key;
      var looked := AfterBackendGet(cfg, b, k, d.at.t1, d.at.t2, d.at.t3);
      LoadOne(cfg, b, d) ==
        if k != "" && k !in b.table
        then AfterBackendSet(cfg, looked, Stamp(d.flag, d.at.t0), d.at.now, d.at.t)
        else looked
  {
    GetAgrees(cfg, b, d.flag.key, d.at.t1);
  }

  lemma LookUpKeeps(cfg: Config, b: Backend, k: string, t1: int, t2: int, t3: int)
    requires Sound(cfg, b)
    ensures var n := AfterBackendGet(cfg, b, k, t1, t2, t3);
      Sound(cfg, n) && n.cache.Some? == b.cache.Some? && n.table == b.table
  {
    ServeStep(cfg, b, RGet(k, t1, t2, t3));
    assert Serve(cfg, b, RGet(k, t1, t2, t3)) == AfterBackendGet(cfg, b, k, t1, t2, t3);
  }

  /** Loading defaults is a first-wins fill, through a cache or not: every stored flag stays as it is,
      exactly the valid default keys are added, and of several defaults with one key the first wins.
      Defaults with an invalid key are skipped. */
  lemma {:induction false} DefaultsFirstWins(cfg: Config, b: Backend, ds: seq<Default>, k: string)
    requires Sound(cfg, b)
    ensures var n, j := LoadDefaults(cfg, b, ds), FirstDefault(ds, k);
      && Sound(cfg, n) && n.cache.Some? == b.cache.Some?
      && (k in n.table <==> k in b.table || (ValidKey(k) && j >= 0))
      && (k in b.table ==> n.table[k] == b.table[k])
      && (k in n.table && k !in b.table ==> n.table[k] == Stamp(Stamp(ds[j].flag, ds[j].at.t0), ds[j].at.now))
  {
    if ds != [] {
      DefaultsFirstWins(cfg, b, ds[..|ds| - 1], k);
      LoadOneStep(cfg, LoadDefaults(cfg, b, ds[..|ds| - 1]), ds[|ds| - 1]);
    }
  }

  /** Loading the same defaults again, at any later times, changes no stored flag. */
  lemma {:induction false} DefaultsTwice(cfg: Config, b: Backend, ds: seq<Default>, again: seq<Default>)
    requires Sound(cfg, b)
    requires forall i :: 0 <= i < |again| ==> exists j :: 0 <= j < |ds| && ds[j].flag == again[i].flag
    ensures var n := LoadDefaults(cfg, b, ds);
      Sound(cfg, n) && Sound(cfg, LoadDefaults(cfg, n, again)) && LoadDefaults(cfg, n, again).table == n.table
  {
    var n := LoadDefaults(cfg, b, ds);
    DefaultsFirstWins(cfg, b, ds, "");
    if again != [] {
      var d := again[|again| - 1];
      DefaultsTwice(cfg, b, ds, again[..|again| - 1]);
      LoadOneStep(cfg, LoadDefaults(cfg, n, again[..|again| - 1]), d);
      DefaultsFirstWins(cfg, b, ds, d.flag.key);
    }
  }
}
