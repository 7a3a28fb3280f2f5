/** `storage`: the cache in front of the key store and the data store. */
module Storages {
  import opened Wrappers
  import opened Order
  import opened Wrtstat
  import opened StoredKeys
  import opened KeyAggregators
  import opened DataStore
  import opened KeyStorages
  import opened CacheSpec
  import opened KeyCaches
  import opened StorageSpec

  class Storage {
    const settings: Settings
    const ttl: int
    var cache: KeyCache
    const keyStorage: KeyStorage
    const dataStorage: ShardRocksdb

    ghost predicate Valid()
      reads this, cache, cache.Repr, keyStorage, dataStorage, dataStorage.dbs
    {
      && cache.Valid() && cache.cfg == settings.cfg
      && dataStorage.Valid() && dataStorage.lib == settings.cfg.lib
      && Apart()
    }

    /** The objects on disk are none of the cache's. */
    ghost predicate Apart()
      reads this, cache, dataStorage
    {
      this !in cache.Repr && cache !in DiskRepr() && cache.Repr !! DiskRepr()
    }

    ghost function DiskRepr(): set<object>
      reads dataStorage
    {
      {keyStorage, dataStorage} + (set db | db in dataStorage.dbs)
    }

    ghost function State(): System
      reads this, cache, keyStorage, dataStorage
    {
      System(cache.State(), OnDisk())
    }

    ghost function OnDisk(): Disk
      reads keyStorage, dataStorage
    {
      Disk(keyStorage.records, dataStorage.points)
    }

    /** New aggregators of the cache are no objects on disk. */
    twostate lemma StaysApart()
      requires old(Apart()) && cache == old(cache) && fresh(cache.Repr - old(cache.Repr))
      requires dataStorage.dbs == old(dataStorage.dbs) && this !in cache.Repr
      ensures Apart()
    {
      forall x | x in DiskRepr() ensures x !in cache.Repr {
        assert x in old(DiskRepr());
      }
    }

    /** A storage over empty databases. */
    constructor (settings: Settings, ttl: int, resultLimit: nat, hashSize: nat)
      ensures Valid() && State() == FRESH
      ensures this.settings == settings && this.ttl == ttl && dataStorage.resultLimit == resultLimit
    {
      this.settings := settings;
      this.ttl := ttl;
      var c := new KeyCache(settings.cfg);
      var k := new KeyStorage();
      var d := new ShardRocksdb(settings.cfg.lib, resultLimit, hashSize);
      cache := c;
      keyStorage := k;
      dataStorage := d;
    }

    /** A loop of `set` calls on the data store. */
    method SetPoints(id: nat, up: seq<Info>)
      requires Valid()
      modifies dataStorage`points, dataStorage.dbs
      ensures Valid()
      ensures State() == old(State()).(disk := old(OnDisk()).(points := SetAll(old(dataStorage.points), id, up)))
    {
      for i := 0 to |up|
        modifies dataStorage`points, dataStorage.dbs
        invariant dataStorage.Valid()
        invariant dataStorage.points == SetAll(old(dataStorage.points), id, up[..i])
      {
        dataStorage.Set(id, up[i]);
        assert up[..i + 1][..i] == up[..i];
      }
      assert up[..|up|] == up;
    }

    /** A loop of `inc` calls on the data store. */
    method IncPoints(id: nat, up: seq<Info>)
      requires Valid()
      modifies dataStorage`points, dataStorage.dbs
      ensures Valid()
      ensures State() == old(State()).(disk := old(OnDisk()).(points := IncAll(settings.cfg.lib, old(dataStorage.points), id, up)))
    {
      for i := 0 to |up|
        modifies dataStorage`points, dataStorage.dbs
        invariant dataStorage.Valid()
        invariant dataStorage.points == IncAll(dataStorage.lib, old(dataStorage.points), id, up[..i])
      {
        dataStorage.Inc(id, up[i]);
        assert up[..i + 1][..i] == up[..i];
      }
      assert up[..|up|] == up;
    }

    /** Writes a record and then the points that go with it. */
    method Record(name: string, key: StoredKey, id: nat, up: seq<Info>)
      requires Valid()
      modifies keyStorage, dataStorage`points, dataStorage.dbs
      ensures Valid()
      ensures State() == old(State()).(disk := Disk(old(keyStorage.records)[name := key], SetAll(old(dataStorage.points), id, up)))
    {
      keyStorage.Set(name, key);
      SetPoints(id, up);
    }

    method Add(name: string, data: Sample, clock: int, push: Sample -> PushOutcome)
      requires Valid()
      requires Pushes(settings.cfg.lib, Touched(settings.cfg, State().cache, name, data.info.ts), data, push)
      modifies cache, cache.Repr, keyStorage, dataStorage`points, dataStorage.dbs
      ensures Valid() && cache == old(cache) && fresh(cache.Repr - old(cache.Repr))
      ensures State() == AddTo(settings, old(State()), name, data, clock, push)
    {
      var id, upKey, upData, isLast := AddToCache(name, data, clock, push);
      StoreAdded(name, id, upKey, upData, isLast);
    }

    /** The first half of `add`. */
    method AddToCache(name: string, data: Sample, clock: int, push: Sample -> PushOutcome)
      returns (id: nat, upKey: Option<StoredKey>, upData: seq<Info>, isLast: bool)
      requires Valid()
      requires Pushes(settings.cfg.lib, Touched(settings.cfg, State().cache, name, data.info.ts), data, push)
      modifies cache, cache.Repr
      ensures Valid() && cache == old(cache) && fresh(cache.Repr - old(cache.Repr))
      ensures State() == old(State()).(cache := AddPoint(settings.cfg, old(State()).cache, name, data, clock, push))
      ensures name in State().cache.keys && State().cache.keys[name].key.id == id
      ensures var a := Touched(settings.cfg, old(State()).cache, name, data.info.ts);
              isLast == !IsLate(a, data) && upData == AddData(settings.cfg, a, data, push)
      ensures isLast ==> upKey == Some(State().cache.keys[name].key)
    {
      id, upKey, upData, isLast := cache.Add(name, data, clock, push);
      StaysApart();
    }

    /** The second half of `add` and of `merge`: what goes to disk. */
    method StoreAdded(name: string, id: nat, upKey: Option<StoredKey>, upData: seq<Info>, isLast: bool)
      requires Valid() && name in State().cache.keys && State().cache.keys[name].key.id == id
      requires isLast ==> upKey == Some(State().cache.keys[name].key)
      modifies keyStorage, dataStorage`points, dataStorage.dbs
      ensures Valid() && cache.Repr == old(cache.Repr)
      ensures State() == old(State()).(disk := StorageSpec.StoreAdded(settings, old(OnDisk()), name,
                                                                      old(State()).cache.keys[name].key, !isLast, upData))
    {
      if isLast {
        Record(name, upKey.value, id, upData);
      } else if settings.disableMerge {
        SetPoints(id, upData);
      } else {
        IncPoints(id, upData);
      }
    }

    method Merge(name: string, data: seq<Info>, clock: int) returns (ok: bool)
      requires Valid()
      modifies cache, cache.Repr, keyStorage, dataStorage`points, dataStorage.dbs
      ensures Valid() && cache == old(cache) && fresh(cache.Repr - old(cache.Repr))
      ensures State() == MergeTo(settings, old(State()), name, data, clock)
      ensures ok == (data != [])
    {
      if data == [] {
        return false;
      }
      var id, upKey, upData := MergeIntoCache(name, data, clock);
      StoreAdded(name, id, upKey, upData, true);
      ok := true;
    }

    /** The first half of `merge`. */
    method MergeIntoCache(name: string, data: seq<Info>, clock: int)
      returns (id: nat, upKey: Option<StoredKey>, upData: seq<Info>)
      requires Valid() && data != []
      modifies cache, cache.Repr
      ensures Valid() && cache == old(cache) && fresh(cache.Repr - old(cache.Repr))
      ensures State() == old(State()).(cache := MergePoints(settings.cfg, old(State()).cache, name, data, clock))
      ensures name in State().cache.keys && State().cache.keys[name].key.id == id
      ensures upKey == Some(State().cache.keys[name].key)
      ensures upData == Coalesce(settings.cfg.lib, Aligned(settings.cfg.lib, data))
    {
      var found: Option<nat>;
      found, upKey, upData := cache.Merge(name, data, clock);
      id := found.value;
      StaysApart();
    }

    /** The points of a name from `ts` on; time 0 stands for the start of the retention time. */
    method Get(name: string, ts: int, offset: nat, limit: nat, clock: int) returns (result: Option<seq<Info>>)
      requires Valid()
      ensures result == match IdOf(State().cache, name)
                        case None => None
                        case Some(id) =>
                          var from := if ts == 0 then (clock - ttl) * settings.cfg.resolution else ts;
                          Some(Window(Series(State().disk.points, id, from), offset, Clamp(limit, dataStorage.resultLimit)))
      ensures result.Some? <==> name in State().cache.keys
      ensures result.Some? ==>
                IsRead(State().disk.points, State().cache.keys[name].key.id, if ts == 0 then (clock - ttl) * settings.cfg.resolution else ts,
                       offset, limit, dataStorage.resultLimit, result.value)
    {
      var id := cache.GetId(name);
      if id == None {
        return None;
      }
      var from := if ts == 0 then (clock - ttl) * settings.cfg.resolution else ts;
      var points := dataStorage.Get(id.value, from, offset, limit);
      result := Some(points);
    }

    method Del(name: string) returns (ok: bool)
      requires Valid()
      modifies cache, keyStorage, dataStorage`points, dataStorage.dbs
      ensures Valid() && cache == old(cache) && cache.Repr == old(cache.Repr)
      ensures State() == StorageSpec.Del(old(State()), name)
      ensures ok == (name in old(State()).cache.keys)
    {
      var id := cache.Del(name);
      if id == None {
        return false;
      }
      assert Valid();
      Forget(name, id.value);
      ok := true;
    }

    /** Deletes a record and the points of its id. */
    method Forget(name: string, id: nat)
      requires Valid()
      modifies keyStorage, dataStorage`points, dataStorage.dbs
      ensures Valid()
      ensures State() == old(State()).(disk := Disk(old(keyStorage.records) - {name}, Without(old(dataStorage.points), id)))
    {
      keyStorage.Del(name);
      dataStorage.Del(id);
    }

    method Gc(clock: int) returns (count: nat)
      requires Valid()
      modifies cache
      ensures Valid() && cache == old(cache) && cache.Repr == old(cache.Repr)
      ensures State() == StorageSpec.Gc(settings, old(State()), clock)
      ensures count == |Removed(settings.cfg, old(State()).cache, clock)|
    {
      count := cache.Gc(clock);
    }

    /** A new cache is filled from the key store and collected once. */
    method Open(clock: int)
      requires Valid()
      modifies this`cache
      ensures Valid() && fresh(cache) && fresh(cache.Repr)
      ensures State() == StorageSpec.Open(settings, old(OnDisk()), clock)
    {
      var loaded := LoadCache(clock);
      assert loaded !in DiskRepr();
      cache := loaded;
    }

    method LoadCache(clock: int) returns (loaded: KeyCache)
      ensures fresh(loaded) && fresh(loaded.Repr) && loaded.Valid() && loaded.cfg == settings.cfg
      ensures loaded.State() == Collect(settings.cfg, Load(settings, OnDisk()), clock)
    {
      loaded := FilledCache();
      var _ := loaded.Gc(clock);
    }

    method FilledCache() returns (loaded: KeyCache)
      ensures fresh(loaded) && fresh(loaded.Repr) && loaded.Valid() && loaded.cfg == settings.cfg
      ensures loaded.State() == Load(settings, OnDisk())
    {
      loaded := new KeyCache(settings.cfg);
      var batches := keyStorage.Load(10000);
      LoadBatches(loaded, batches);
      BatchingIsIrrelevant(settings.cfg, EMPTY, batches);
    }

    /** The load handler, batch by batch. */
    static method LoadBatches(c: KeyCache, batches: seq<seq<StoredName>>)
      requires c.Valid()
      modifies c
      ensures c.Valid() && fresh(c.Repr - old(c.Repr))
      ensures c.State() == InitBatches(c.cfg, old(c.State()), batches)
    {
      for i := 0 to |batches|
        invariant c.Valid() && fresh(c.Repr - old(c.Repr))
        invariant c.State() == InitBatches(c.cfg, old(c.State()), batches[..i])
      {
        LoadBatch(c, batches[i]);
        assert batches[..i + 1][..i] == batches[..i];
      }
      assert batches[..|batches|] == batches;
    }

    static method LoadBatch(c: KeyCache, batch: seq<StoredName>)
      requires c.Valid()
      modifies c
      ensures c.Valid() && fresh(c.Repr - old(c.Repr))
      ensures c.State() == InitAll(c.cfg, old(c.State()), batch)
    {
      for i := 0 to |batch|
        invariant c.Valid() && fresh(c.Repr - old(c.Repr))
        invariant c.State() == InitAll(c.cfg, old(c.State()), batch[..i])
      {
        var _ := c.Init(batch[i]);
        assert batch[..i + 1][..i] == batch[..i];
      }
      assert batch[..|batch|] == batch;
    }

    /** Records every cached name and stores its last point; the databases stay. */
    method Close(pop: string -> Option<Info>)
      requires Valid()
      modifies cache, cache.Repr, keyStorage, dataStorage`points, dataStorage.dbs
      ensures Valid() && cache == old(cache)
      ensures State().cache == Popped(settings.cfg, old(State()).cache, pop)
      ensures OnDisk() == StorageSpec.Close(settings, old(State()), pop)
    {
      var released := cache.Release(pop);
      assert Valid();
      StoreReleased(released, old(State()).cache);
    }

    /** The loop of `close` over what the cache released. */
    method StoreReleased(released: seq<StoredInfo>, ghost c: Cache)
      requires Valid()
      requires forall i :: 0 <= i < |released| ==> released[i].record.name in c.keys
      requires forall i :: 0 <= i < |released| ==> SameId(released[i].record.name, c)
      modifies keyStorage, dataStorage`points, dataStorage.dbs
      ensures Valid()
      ensures State() == old(State()).(disk := StorageSpec.StoreReleased(c, old(OnDisk()), released))
    {
      ghost var disk := OnDisk();
      for i := 0 to |released|
        modifies keyStorage, dataStorage`points, dataStorage.dbs
        invariant Valid()
        invariant OnDisk() == StorageSpec.StoreReleased(c, disk, released[..i])
      {
        assert SameId(released[i].record.name, c);
        StoreReleasedStep(c, disk, released, i);
        StoreOne(released[i], c);
      }
      assert released[..|released|] == released;
    }

    /** The cache has the name under the id it has in `c`. */
    ghost predicate SameId(name: string, c: Cache)
      reads this`cache, cache
    {
      name in c.keys && IdOf(cache.State(), name) == Some(c.keys[name].key.id)
    }

    method StoreOne(r: StoredInfo, ghost c: Cache)
      requires Valid() && SameId(r.record.name, c)
      modifies keyStorage, dataStorage`points, dataStorage.dbs
      ensures Valid()
      ensures State() == old(State()).(disk := StorageSpec.StoreOne(c, old(OnDisk()), r))
    {
      var id := cache.GetId(r.record.name);
      Record(r.record.name, r.record.key, id.value, r.points);
    }
  }
}
