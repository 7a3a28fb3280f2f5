/** `storage` on values: the cache together with what is on disk, and its runs. */
module StorageSpec {
  import opened Wrappers
  import opened Wrtstat
  import opened StoredKeys
  import opened KeyAggregators
  import opened Coalescing
  import opened DataStore
  import opened KeyStorages
  import opened CacheSpec

  datatype Settings = Settings(cfg: Config, disableMerge: bool)

  datatype Disk = Disk(keys: map<string, StoredKey>, points: Points)

  datatype System = System(cache: Cache, disk: Disk)

  const FRESH := System(EMPTY, Disk(map[], map[]))

  // ----- operations

  /** A loop of `set` calls. */
  function SetAll(m: Points, id: nat, ds: seq<Info>): Points {
    if ds == [] then m else Put(SetAll(m, id, ds[..|ds| - 1]), id, ds[|ds| - 1])
  }

  /** A loop of `inc` calls. */
  function IncAll(lib: Library, m: Points, id: nat, ds: seq<Info>): Points {
    if ds == [] then m else Increment(lib, IncAll(lib, m, id, ds[..|ds| - 1]), id, ds[|ds| - 1])
  }

  /** The disk after an add or a merge: the record and the points that go with it, or a late
      point alone. */
  function StoreAdded(o: Settings, d: Disk, name: string, key: StoredKey, late: bool, up: seq<Info>): Disk {
    if !late then Disk(d.keys[name := key], SetAll(d.points, key.id, up))
    else if o.disableMerge then d.(points := SetAll(d.points, key.id, up))
    else d.(points := IncAll(o.cfg.lib, d.points, key.id, up))
  }

  function AddTo(o: Settings, s: System, name: string, data: Sample, clock: int, push: Sample -> PushOutcome): System {
    var a := Touched(o.cfg, s.cache, name, data.info.ts);
    var cache := AddPoint(o.cfg, s.cache, name, data, clock, push);
    System(cache, StoreAdded(o, s.disk, name, cache.keys[name].key, IsLate(a, data), AddData(o.cfg, a, data, push)))
  }

  function MergeTo(o: Settings, s: System, name: string, data: seq<Info>, clock: int): System {
    if data == [] then s
    else
      var cache := MergePoints(o.cfg, s.cache, name, data, clock);
      System(cache, StoreAdded(o, s.disk, name, cache.keys[name].key, false, Coalesce(o.cfg.lib, Aligned(o.cfg.lib, data))))
  }

  function Del(s: System, name: string): System {
    if name !in s.cache.keys then s
    else
      System(Delete(s.cache, name), Disk(s.disk.keys - {name}, Without(s.disk.points, s.cache.keys[name].key.id)))
  }

  function Gc(o: Settings, s: System, clock: int): System {
    s.(cache := Collect(o.cfg, s.cache, clock))
  }

  /** What `close` writes for one released name. */
  function StoreOne(c: Cache, d: Disk, r: StoredInfo): Disk
    requires r.record.name in c.keys
  {
    Disk(d.keys[r.record.name := r.record.key], SetAll(d.points, c.keys[r.record.name].key.id, r.points))
  }

  /** The loop of `close` over what was released. */
  function StoreReleased(c: Cache, d: Disk, released: seq<StoredInfo>): Disk
    requires forall i :: 0 <= i < |released| ==> released[i].record.name in c.keys
  {
    if released == [] then d
    else StoreOne(c, StoreReleased(c, d, released[..|released| - 1]), released[|released| - 1])
  }

  lemma StoreReleasedStep(c: Cache, d: Disk, released: seq<StoredInfo>, i: nat)
    requires i < |released| && forall j :: 0 <= j < |released| ==> released[j].record.name in c.keys
    ensures StoreReleased(c, d, released[..i + 1]) == StoreOne(c, StoreReleased(c, d, released[..i]), released[i])
  {
    assert released[..i + 1][..i] == released[..i];
  }

  function Close(o: Settings, s: System, pop: string -> Option<Info>): Disk {
    StoreReleased(s.cache, s.disk, Released(o.cfg, s.cache, pop))
  }

  /** The cache rebuilt from the key store, before the start-up gc. */
  function Load(o: Settings, d: Disk): Cache {
    InitAll(o.cfg, EMPTY, Records(d.keys))
  }

  function Open(o: Settings, d: Disk, clock: int): System {
    System(Collect(o.cfg, Load(o, d), clock), d)
  }

  // ----- runs

  /** One call, with what the clock and the aggregation library contribute to it.  A restart is
      clean when the storage was closed; otherwise only what is on disk survives. */
  datatype Step =
    | DoAdd(name: string, data: Sample, clock: int, push: Sample -> PushOutcome)
    | DoMerge(name: string, list: seq<Info>, clock: int)
    | DoDel(name: string)
    | DoGc(clock: int)
    | DoRestart(clean: bool, pop: string -> Option<Info>, clock: int)

  function Do(o: Settings, s: System, step: Step): System {
    match step
    case DoAdd(name, data, clock, push) => AddTo(o, s, name, data, clock, push)
    case DoMerge(name, list, clock) => MergeTo(o, s, name, list, clock)
    case DoDel(name) => Del(s, name)
    case DoGc(clock) => Gc(o, s, clock)
    case DoRestart(clean, pop, clock) => Open(o, Left(o, s, step), clock)
  }

  /** What a restart finds on disk. */
  function Left(o: Settings, s: System, step: Step): Disk
    requires step.DoRestart?
  {
    if step.clean then Close(o, s, step.pop) else s.disk
  }

  /** Times are not negative, and the library keeps its contract. */
  ghost predicate Allowed(o: Settings, s: System, step: Step) {
    match step
    case DoAdd(name, data, clock, push) =>
      0 <= data.info.ts && Pushes(o.cfg.lib, Touched(o.cfg, s.cache, name, data.info.ts), data, push)
    case DoMerge(name, list, clock) => forall i :: 0 <= i < |list| ==> 0 <= list[i].ts
    case DoDel(name) => true
    case DoGc(clock) => true
    case DoRestart(clean, pop, clock) =>
      forall n :: n in s.cache.keys && pop(n).Some? ==> s.cache.keys[n].current <= pop(n).value.ts
  }

  function Run(o: Settings, s: System, steps: seq<Step>): System {
    if steps == [] then s else Do(o, Run(o, s, steps[..|steps| - 1]), steps[|steps| - 1])
  }

  ghost predicate AllAllowed(o: Settings, s: System, steps: seq<Step>) {
    forall i :: 0 <= i < |steps| ==> Allowed(o, Run(o, s, steps[..i]), steps[i])
  }

  lemma AllowedPrefix(o: Settings, s: System, steps: seq<Step>)
    requires AllAllowed(o, s, steps) && steps != []
    ensures AllAllowed(o, s, steps[..|steps| - 1])
    ensures Allowed(o, Run(o, s, steps[..|steps| - 1]), steps[|steps| - 1])
  {
    var init := steps[..|steps| - 1];
    forall i | 0 <= i < |init| ensures Allowed(o, Run(o, s, init[..i]), init[i]) {
      assert init[..i] == steps[..i] && init[i] == steps[i];
    }
  }

  // ----- loops of writes

  /** After a loop of `set` calls a slot holds the last point written to it. */
  lemma {:induction false} SetAllAt(m: Points, id: nat, ds: seq<Info>, k: PointKey)
    ensures k.0 == id && LastAt(ds, k.1).Some? ==> k in SetAll(m, id, ds) && SetAll(m, id, ds)[k] == LastAt(ds, k.1).value
    ensures k.0 != id || LastAt(ds, k.1).None? ==>
              (k in SetAll(m, id, ds) <==> k in m) && (k in m ==> SetAll(m, id, ds)[k] == m[k])
  {
    if ds != [] {
      SetAllAt(m, id, ds[..|ds| - 1], k);
    }
  }

  lemma {:induction false} IncAllElsewhere(lib: Library, m: Points, id: nat, ds: seq<Info>, k: PointKey)
    requires k.0 != id
    ensures (k in IncAll(lib, m, id, ds) <==> k in m) && (k in m ==> IncAll(lib, m, id, ds)[k] == m[k])
  {
    if ds != [] {
      IncAllElsewhere(lib, m, id, ds[..|ds| - 1], k);
    }
  }

  lemma {:induction false} IncAllKeys(lib: Library, m: Points, id: nat, ds: seq<Info>, k: PointKey)
    ensures k in IncAll(lib, m, id, ds) <==> k in m || (k.0 == id && HasSlot(ds, k.1))
  {
    if ds != [] {
      IncAllKeys(lib, m, id, ds[..|ds| - 1], k);
      assert ds == ds[..|ds| - 1] + [ds[|ds| - 1]];
    }
  }

  /** What a merge stores: in every slot of the list the sum of the last block of points in it,
      and nothing elsewhere. */
  lemma MergeStores(o: Settings, s: System, name: string, list: seq<Info>, clock: int, k: PointKey)
    requires o.cfg.lib.Contract() && list != []
    ensures var xs := Aligned(o.cfg.lib, list);
            var points := MergeTo(o, s, name, list, clock).disk.points;
            if k.0 == Touched(o.cfg, s.cache, name, LastTime(list)).key.id && HasSlot(xs, k.1)
            then k in points && Some(points[k]) == LastBlockSum(o.cfg.lib, xs, k.1)
            else (k in points <==> k in s.disk.points) && (k in points ==> points[k] == s.disk.points[k])
  {
    var xs := Aligned(o.cfg.lib, list);
    SetAllAt(s.disk.points, Touched(o.cfg, s.cache, name, LastTime(list)).key.id, Coalesce(o.cfg.lib, xs), k);
    CoalesceConserves(o.cfg.lib, xs, k.1);
    LastIsBlockSum(o.cfg.lib, xs, k.1);
  }

  /** Every input point of a merge is counted in its slot exactly when no slot comes back in
      the list after another one, and then a slot stores the sum of its points; other slots and
      other series are left alone. */
  lemma MergeStoresAll(o: Settings, s: System, name: string, list: seq<Info>, clock: int)
    requires o.cfg.lib.Contract() && PositiveCounts(list) && list != []
    ensures var xs := Aligned(o.cfg.lib, list);
            var id := Touched(o.cfg, s.cache, name, LastTime(list)).key.id;
            var points := MergeTo(o, s, name, list, clock).disk.points;
            && ((forall slot :: HasSlot(xs, slot) ==> (id, slot) in points && points[(id, slot)].count == CountAt(xs, slot))
                <==> Contiguous(xs))
            && (Contiguous(xs) ==>
                  forall slot :: HasSlot(xs, slot) ==> (id, slot) in points && Some(points[(id, slot)]) == SlotSum(o.cfg.lib, xs, slot))
            && (forall k: PointKey :: k.0 != id || !HasSlot(xs, k.1) ==>
                                        (k in points <==> k in s.disk.points) && (k in points ==> points[k] == s.disk.points[k]))
  {
    var xs := Aligned(o.cfg.lib, list);
    var id := Touched(o.cfg, s.cache, name, LastTime(list)).key.id;
    var points := MergeTo(o, s, name, list, clock).disk.points;
    MergeStoresAllIff(o.cfg.lib, xs);
    forall k: PointKey
      ensures k.0 == id && HasSlot(xs, k.1) ==> k in points && Some(points[k]) == LastAt(Coalesce(o.cfg.lib, xs), k.1)
      ensures k.0 == id && HasSlot(xs, k.1) && Contiguous(xs) ==> Some(points[k]) == SlotSum(o.cfg.lib, xs, k.1)
      ensures k.0 != id || !HasSlot(xs, k.1) ==>
                (k in points <==> k in s.disk.points) && (k in points ==> points[k] == s.disk.points[k])
    {
      MergeStores(o, s, name, list, clock, k);
      LastIsBlockSum(o.cfg.lib, xs, k.1);
      if Contiguous(xs) { ContiguousBlockSum(o.cfg.lib, xs, k.1); }
    }
    assert forall slot :: HasSlot(xs, slot) ==> (id, slot) in points && Some(points[(id, slot)]) == LastAt(Coalesce(o.cfg.lib, xs), slot);
  }

  /** An unsorted list can lose points: of slots 1, 2, 1 the last write replaces the first. */
  lemma MergeCanLose() returns (o: Settings, list: seq<Info>)
    ensures o.cfg.lib.Contract() && PositiveCounts(list)
    ensures var points := MergeTo(o, FRESH, "a", list, 0).disk.points;
            (1, 1) in points && points[(1, 1)].count < CountAt(Aligned(o.cfg.lib, list), 1)
  {
    o := Settings(Config(PLAIN, false, 0, 0, 1), false);
    PlainKeepsContract();
    list := [ZERO.(ts := 1, count := 1), ZERO.(ts := 2, count := 1), ZERO.(ts := 1, count := 1)];
    assert Aligned(PLAIN, list) == list;
    RepeatedSlot(PLAIN, list[0], list[1]);
    SetAllAt(FRESH.disk.points, 1, list, (1, 1));
  }
}
