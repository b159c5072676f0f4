/** Store isolation: a caller that does whatever it likes with every object it ever passed to the store
    or got from it cannot change what the store holds. */
module Isolation {
  import opened Prelude
  import opened Flags
  import opened MemoryStore
  import StoreSpec

  class Caller {
    const store: Store
    /** Every metadata map and every flag pointer the caller can reach. */
    var maps: set<MetadataMap>
    var flags: set<FeatureFlag>
    /** The store operations so far, with the values the flags had when they were passed. */
    ghost var history: seq<StoreSpec.StoreOp>

    ghost predicate Knows(s: FlagStruct)
      reads this
    {
      s.metadata != null ==> s.metadata in maps
    }

    /** Nothing reachable by the caller belongs to the store, and the store holds exactly what the
        operations say, whatever was written to those objects before or after. */
    ghost predicate Valid()
      reads this, flags, store, store.Repr
    {
      && store.Valid() && this !in store.Repr
      && (forall m :: m in maps ==> m !in store.Repr)
      && (forall f :: f in flags ==> f !in store.Repr && Knows(f.s))
      && StoreSpec.Clocked(history) && store.table == StoreSpec.Replay(history)
    }

    /** The caller forgets nothing, what it learns is new, and so is what the store takes in. */
    twostate predicate Remembers()
      reads this, store
    {
      && old(maps) <= maps && fresh(maps - old(maps))
      && old(flags) <= flags && fresh(flags - old(flags))
      && fresh(store.Repr - old(store.Repr))
    }

    constructor ()
      ensures Valid() && history == [] && fresh(store) && fresh(store.Repr) && maps == {} && flags == {}
    {
      store := new Store();
      maps, flags, history := {}, {}, [];
    }

    method NewMap(entries: map<string, string>) returns (m: MetadataMap)
      requires Valid()
      modifies this
      ensures Valid() && history == old(history) && store.table == old(store.table)
      ensures fresh(m) && m.entries == entries && maps == old(maps) + {m} && flags == old(flags) && Remembers()
    {
      m := new MetadataMap(entries);
      maps := maps + {m};
    }

    /** The caller writes to any metadata map it knows, even one it passed to Set or got from Get. */
    method WriteMap(m: MetadataMap, entries: map<string, string>)
      requires Valid() && m in maps
      modifies m
      ensures Valid() && m.entries == entries
      ensures history == old(history) && store.table == old(store.table)
    {
      m.entries := entries;
    }

    /** The caller overwrites any flag it got. */
    method WriteFlag(f: FeatureFlag, s: FlagStruct)
      requires Valid() && f in flags && Knows(s)
      modifies f
      ensures Valid() && f.s == s
      ensures history == old(history) && store.table == old(store.table)
    {
      f.s := s;
    }

    method Set(flag: FlagStruct, now: int) returns (err: Option<Error>)
      requires Valid() && Knows(flag) && now > 0 && now >= StoreSpec.ClockOf(history)
      modifies this, store
      ensures Valid() && history == old(history) + [StoreSpec.SetOp(flag.Value(), now)]
      ensures maps == old(maps) && flags == old(flags) && Remembers()
      ensures err == StoreSpec.SetError(flag.Value())
    {
      hide Store.Valid, StoreSpec.Set, StoreSpec.Delete, StoreSpec.Replay, StoreSpec.Clocked;
      StoreSpec.OneMore(history, StoreSpec.SetOp(flag.Value(), now));
      history := history + [StoreSpec.SetOp(flag.Value(), now)];
      err := store.Set(flag, now);
    }

    method Delete(key: string) returns (err: Option<Error>)
      requires Valid()
      modifies this, store
      ensures Valid() && history == old(history) + [StoreSpec.DeleteOp(key)]
      ensures maps == old(maps) && flags == old(flags) && Remembers()
      ensures err == StoreSpec.DeleteError(old(store.table), key)
    {
      hide Store.Valid, StoreSpec.Set, StoreSpec.Delete, StoreSpec.Replay, StoreSpec.Clocked;
      StoreSpec.OneMore(history, StoreSpec.DeleteOp(key));
      history := history + [StoreSpec.DeleteOp(key)];
      err := store.Delete(key);
    }

    method Close()
      requires Valid()
      modifies this, store
      ensures Valid() && history == old(history) + [StoreSpec.CloseOp]
      ensures maps == old(maps) && flags == old(flags) && Remembers()
    {
      hide Store.Valid, StoreSpec.Set, StoreSpec.Delete, StoreSpec.Replay, StoreSpec.Clocked;
      StoreSpec.OneMore(history, StoreSpec.CloseOp);
      history := history + [StoreSpec.CloseOp];
      store.Close();
    }

    /** A later read depends on the operations alone. */
    method Get(key: string) returns (r: Result<FeatureFlag, Error>)
      requires Valid()
      modifies this
      ensures Valid() && history == old(history)
      ensures match StoreSpec.Get(StoreSpec.Replay(history), key)
        case Err(e) => r == Err(e)
        case Ok(f) => r.Ok? && r.value.Value() == f && r.value in flags && Knows(r.value.s) && fresh(Parts(r.value))
      ensures Remembers()
    {
      hide Store.Valid, StoreSpec.Replay;
      r := store.Get(key);
      if r.Ok? {
        flags := flags + {r.value};
        if r.value.s.metadata != null {
          maps := maps + {r.value.s.metadata};
        }
      }
    }

    /** The metadata maps in a received list. */
    static method Received(all: seq<FlagStruct>) returns (ms: set<MetadataMap>)
      ensures forall i :: 0 <= i < |all| && all[i].metadata != null ==> all[i].metadata in ms
      ensures forall m :: m in ms ==> exists i :: 0 <= i < |all| && all[i].metadata == m
    {
      ms := {};
      for i := 0 to |all|
        invariant forall j :: 0 <= j < i && all[j].metadata != null ==> all[j].metadata in ms
        invariant forall m :: m in ms ==> exists j :: 0 <= j < i && all[j].metadata == m
      {
        if all[i].metadata != null {
          ms := ms + {all[i].metadata};
        }
      }
    }

    method GetAll() returns (all: seq<FlagStruct>, ghost order: seq<string>)
      requires Valid()
      modifies this
      ensures Valid() && history == old(history)
      ensures StoreSpec.Enumerates(order, StoreSpec.Replay(history)) && |all| == |order|
      ensures forall i :: 0 <= i < |all| ==> order[i] in StoreSpec.Replay(history)
      ensures forall i :: 0 <= i < |all| ==> Knows(all[i]) && all[i].Value() == StoreSpec.Replay(history)[order[i]]
      ensures flags == old(flags) && Remembers()
    {
      hide Store.Valid, StoreSpec.Replay;
      all, order := store.GetAll();
      var ms := Received(all);
      assert forall m :: m in ms ==> fresh(m);
      maps := maps + ms;
    }
  }

  /** For any entries: pass a map to Set, overwrite it, read the flag, overwrite what was read and its map;
      the next read still returns the entries that were set. */
  method WriteEverywhere(flag: FlagStruct, entries: map<string, string>, others: map<string, string>, now: int)
    returns (r: Result<FeatureFlag, Error>)
    requires ValidKey(flag.key) && now > 0
    ensures r.Ok? && r.value.Value() == Stamp(flag.(metadata := null).Value(), now).(metadata := Some(entries))
  {
    hide Caller.Valid;
    ValidationMeaning(flag.key);
    ghost var value := flag.(metadata := null).Value().(metadata := Some(entries));
    StoreSpec.OneMore([], StoreSpec.SetOp(value, now));
    assert [] + [StoreSpec.SetOp(value, now)] == [StoreSpec.SetOp(value, now)];
    var c := new Caller();
    var m := c.NewMap(entries);
    var err := c.Set(flag.(metadata := m), now);
    c.WriteMap(m, others);
    var got := c.Get(flag.key);
    if got.value.s.metadata != null {
      c.WriteMap(got.value.s.metadata, others);
    }
    c.WriteFlag(got.value, FlagStruct("", !flag.enabled, "", 0, 0, m));
    r := c.Get(flag.key);
  }
}
