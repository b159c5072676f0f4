/** The in-memory store on the heap: flags behind pointers, metadata maps that are shared by reference. */
module MemoryStore {
  import opened Prelude
  import opened Flags
  import StoreSpec

  /** A Go map[string]string: whoever has it can write to it. */
  class MetadataMap {
    var entries: map<string, string>

    constructor (entries: map<string, string>)
      ensures this.entries == entries
    {
      this.entries := entries;
    }
  }

  /** A Go FeatureFlag by value: copying it copies the reference to its metadata. */
  datatype FlagStruct = FlagStruct(key: string, enabled: bool, description: string, createdAt: int, updatedAt: int,
                                   metadata: MetadataMap?) {
    ghost function Value(): Flag
      reads metadata
    {
      Flag(key, enabled, description, createdAt, updatedAt, if metadata == null then None else Some(metadata.entries))
    }

    /** SetTimestamps on the local copy. */
    function Stamped(now: int): FlagStruct {
      this.(createdAt := if createdAt == 0 then now else createdAt, updatedAt := now)
    }
  }

  /** A *FeatureFlag. */
  class FeatureFlag {
    var s: FlagStruct

    constructor (s: FlagStruct)
      ensures this.s == s
    {
      this.s := s;
    }

    ghost function Value(): Flag
      reads this, s.metadata
    {
      s.Value()
    }
  }

  lemma ValueFields(f: FeatureFlag)
    ensures f.Value().key == f.s.key && f.Value().createdAt == f.s.createdAt
  {
  }

  /** The objects that make up a flag. */
  ghost function Parts(f: FeatureFlag): set<object>
    reads f
  {
    if f.s.metadata == null then {f} else {f, f.s.metadata}
  }

  /** Clone: a new flag with a new metadata map, filled in any iteration order. */
  method Clone(s: FlagStruct) returns (clone: FeatureFlag)
    ensures fresh(Parts(clone)) && clone.s.key == s.key && clone.s.createdAt == s.createdAt
    ensures clone.Value() == s.Value()
  {
    if s.metadata == null {
      clone := new FeatureFlag(s);
      return;
    }
    var copied := new MetadataMap(map[]);
    var rest := s.metadata.entries.Keys;
    while rest != {}
      invariant rest <= s.metadata.entries.Keys && fresh(copied)
      invariant copied.entries == s.metadata.entries - rest
      invariant s.metadata.entries == old(s.metadata.entries)
    {
      var k :| k in rest;
      copied.entries := copied.entries[k := s.metadata.entries[k]];
      rest := rest - {k};
    }
    assert copied.entries == s.metadata.entries;
    clone := new FeatureFlag(s.(metadata := copied));
  }

  /** The flags consist of these objects, and are what the table says. */
  ghost predicate Tabled(flags: map<string, FeatureFlag>, table: StoreSpec.Table, objs: set<object>)
    reads objs
  {
    && flags.Keys == table.Keys
    && (forall k {:trigger flags[k]} :: k in flags ==>
          flags[k] in objs && (flags[k].s.metadata != null ==> flags[k].s.metadata in objs))
    && (forall k {:trigger table[k]} :: k in flags ==> flags[k].Value() == table[k])
  }

  lemma TabledKeys(flags: map<string, FeatureFlag>, table: StoreSpec.Table, objs: set<object>)
    requires Tabled(flags, table, objs)
    ensures flags.Keys == table.Keys
  {
  }

  lemma TabledPut(flags: map<string, FeatureFlag>, table: StoreSpec.Table, objs: set<object>, key: string,
                  f: FeatureFlag)
    requires Tabled(flags, table, objs)
    ensures Tabled(flags[key := f], table[key := f.Value()], objs + Parts(f))
  {
  }

  lemma TabledDelete(flags: map<string, FeatureFlag>, table: StoreSpec.Table, objs: set<object>, key: string)
    requires Tabled(flags, table, objs)
    ensures Tabled(flags - {key}, table - {key}, objs)
  {
  }

  class Store {
    var flags: map<string, FeatureFlag>
    /** The stored flags as values. */
    ghost var table: StoreSpec.Table
    ghost var Repr: set<object>

    ghost predicate Valid()
      reads this, Repr
    {
      this in Repr && Tabled(flags, table, Repr - {this}) && StoreSpec.Valid(table)
    }

    constructor ()
      ensures Valid() && table == map[] && fresh(Repr)
    {
      flags, table := map[], map[];
      Repr := {this};
    }

    /** Get returns a clone, so nothing of the store leaves it. */
    method Get(key: string) returns (r: Result<FeatureFlag, Error>)
      requires Valid()
      ensures match StoreSpec.Get(table, key)
        case Err(e) => r == Err(e)
        case Ok(f) => r.Ok? && r.value.Value() == f && fresh(Parts(r.value))
    {
      if key == "" {
        return Err(InvalidFlag);
      }
      if key !in flags {
        return Err(NotFound);
      }
      var clone := Clone(flags[key].s);
      return Ok(clone);
    }

    /** m.flags[key] = clone */
    method Install(key: string, clone: FeatureFlag)
      requires Valid() && clone.s.key == key && ValidKey(key) && clone.s.createdAt != 0
      modifies this
      ensures Valid() && table == old(table)[key := clone.Value()]
      ensures Repr == old(Repr) + Parts(clone)
    {
      hide StoreSpec.Valid, Tabled, FlagStruct.Value;
      ValueFields(clone);
      StoreSpec.InstallValid(table, key, clone.Value());
      TabledPut(flags, table, Repr - {this}, key, clone);
      ghost var m, objs := table[key := clone.Value()], Repr + Parts(clone);
      assert objs - {this} == Repr - {this} + Parts(clone);
      flags, table, Repr := flags[key := clone], m, objs;
    }

    /** The local copy that Set stores: the old creation time if there is one, and a new stamp. */
    method Prepare(flag: FlagStruct, now: int) returns (local: FlagStruct)
      requires Valid() && now > 0
      ensures local.Value() == StoreSpec.Stored(table, flag.Value(), now)
      ensures local.key == flag.key && local.createdAt != 0
    {
      local := flag;
      if flag.key in flags {
        assert flags[flag.key].Value() == table[flag.key];
        local := local.(createdAt := flags[flag.key].s.createdAt);
      }
      local := local.Stamped(now);
    }

    /** Set stores a clone of its own copy, so nothing of the caller enters the store. */
    method Set(flag: FlagStruct, now: int) returns (err: Option<Error>)
      requires Valid() && now > 0
      modifies this
      ensures Valid() && fresh(Repr - old(Repr))
      ensures err == StoreSpec.SetError(flag.Value()) && table == StoreSpec.Set(old(table), flag.Value(), now)
    {
      hide Store.Valid;
      ghost var value := flag.Value();
      err := Validate(flag.key);
      if err.None? {
        var local := Prepare(flag, now);
        var clone := Clone(local);
        assert clone.Value() == StoreSpec.Stored(table, value, now);
        Install(flag.key, clone);
      }
      assert flag.Value() == value;
    }

    method Delete(key: string) returns (err: Option<Error>)
      requires Valid()
      modifies this
      ensures Valid() && Repr == old(Repr)
      ensures err == StoreSpec.DeleteError(old(table), key) && table == StoreSpec.Delete(old(table), key)
      ensures err == None <==> key in old(table)
      ensures key != "" && key !in old(table) ==> err == Some(NotFound)
      ensures table == old(table) - {key}
    {
      hide StoreSpec.Valid, Tabled;
      StoreSpec.DeleteValid(table, key);
      StoreSpec.NoEmptyKey(table);
      TabledDelete(flags, table, Repr - {this}, key);
      TabledKeys(flags, table, Repr - {this});
      if key == "" {
        return Some(InvalidFlag);
      }
      if key !in flags {
        return Some(NotFound);
      }
      flags, table := flags - {key}, table - {key};
      return None;
    }

    method Close()
      requires Valid()
      modifies this
      ensures Valid() && Repr == old(Repr) && table == map[]
    {
      flags, table := map[], map[];
    }

    /** GetAll: clones of all flags, in some map iteration order. */
    method GetAll() returns (all: seq<FlagStruct>, ghost order: seq<string>)
      requires Valid()
      ensures StoreSpec.Enumerates(order, table) && |all| == |order|
      ensures forall i :: 0 <= i < |all| ==> order[i] in table && all[i].Value() == table[order[i]]
      ensures forall i :: 0 <= i < |all| && all[i].metadata != null ==> fresh(all[i].metadata)
    {
      all, order := [], [];
      var rest := flags.Keys;
      while rest != {}
        invariant rest <= flags.Keys && NoDup(order) && |all| == |order|
        invariant Elements(order) == flags.Keys - rest
        invariant forall i :: 0 <= i < |all| ==> order[i] in table && all[i].Value() == table[order[i]]
        invariant forall i :: 0 <= i < |all| && all[i].metadata != null ==> fresh(all[i].metadata)
      {
        var k :| k in rest;
        assert k !in Elements(order);
        assert flags[k].Value() == table[k];
        hide NoDup;
        var clone := Clone(flags[k].s);
        NoDupSnoc(order, k);
        all, order := all + [clone.s], order + [k];
        rest := rest - {k};
      }
    }
  }
}
