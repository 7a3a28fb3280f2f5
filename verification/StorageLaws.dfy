/** What one call of the storage does, said in terms of the points, times and records alone. */
module StorageLaws {
  import opened Wrappers
  import opened Wrtstat
  import opened StoredKeys
  import opened KeyAggregators
  import opened Coalescing
  import opened DataStore
  import opened KeyStorages
  import opened CacheSpec
  import opened StorageSpec
  import opened StorageRuns
  import Arithmetic
  import Names

  /** The point of a slot, or zero when there is none. */
  function Before(m: Points, id: nat, slot: int): Info {
    if (id, slot) in m then m[(id, slot)] else ZERO
  }

  /** The id and the separator's time under which a point is added to a name. */
  function IdFor(c: Cache, name: string): nat {
    if name in c.keys then c.keys[name].key.id else c.counter + 1
  }

  function TimeFor(cfg: Config, c: Cache, name: string, ts: int): int {
    if name in c.keys then c.keys[name].current else cfg.lib.begin(ts)
  }

  function RecordFor(c: Cache, name: string): StoredValues {
    if name in c.keys then c.keys[name].key.values else PRISTINE
  }

  // ----- add

  lemma OneWrite(lib: Library, m: Points, id: nat, d: Info)
    ensures SetAll(m, id, [d]) == m[(id, d.ts) := d]
    ensures IncAll(lib, m, id, [d]) == m[(id, d.ts) := lib.plus(Before(m, id, d.ts), d)]
  {
    assert [d][..0] == [];
  }

  /** A late point is counted in its slot, whole, and nothing else changes. */
  lemma LateAddIsAdded(o: Settings, s: System, name: string, data: Sample, clock: int, push: Sample -> PushOutcome)
    requires !o.disableMerge && name in s.cache.keys
    requires data.info.ts != 0 && data.info.ts < s.cache.keys[name].current
    ensures var d, id, slot := data.info, s.cache.keys[name].key.id, o.cfg.lib.align(data.info.ts);
            var point := Info(slot, d.count, d.lossy, d.min, d.max, d.avg, o.cfg.lib.calcPerc(data));
            var t := AddTo(o, s, name, data, clock, push);
            && t.disk == Disk(s.disk.keys, s.disk.points[(id, slot) := o.cfg.lib.plus(Before(s.disk.points, id, slot), point)])
            && t.cache.keys == s.cache.keys && t.cache.counter == s.cache.counter
            && (o.cfg.lib.Contract() ==>
                  t.disk.points[(id, slot)].count == Before(s.disk.points, id, slot).count + d.count)
  {
    var d, slot := data.info, o.cfg.lib.align(data.info.ts);
    var point := Info(slot, d.count, d.lossy, d.min, d.max, d.avg, o.cfg.lib.calcPerc(data));
    assert AddData(o.cfg, s.cache.keys[name], data, push) == [point];
    OneWrite(o.cfg.lib, s.disk.points, s.cache.keys[name].key.id, point);
    assert AddPoint(o.cfg, s.cache, name, data, clock, push).keys == s.cache.keys;
  }

  /** While merging is disabled it replaces what its slot held. */
  lemma LateAddReplaces(o: Settings, s: System, name: string, data: Sample, clock: int, push: Sample -> PushOutcome)
    requires o.disableMerge && name in s.cache.keys
    requires data.info.ts != 0 && data.info.ts < s.cache.keys[name].current
    ensures var d, id, slot := data.info, s.cache.keys[name].key.id, o.cfg.lib.align(data.info.ts);
            var point := Info(slot, d.count, d.lossy, d.min, d.max, d.avg, o.cfg.lib.calcPerc(data));
            var t := AddTo(o, s, name, data, clock, push);
            && t.disk == Disk(s.disk.keys, s.disk.points[(id, slot) := point])
            && t.cache.keys == s.cache.keys && t.cache.counter == s.cache.counter
  {
    var d, slot := data.info, o.cfg.lib.align(data.info.ts);
    var point := Info(slot, d.count, d.lossy, d.min, d.max, d.avg, o.cfg.lib.calcPerc(data));
    assert AddData(o.cfg, s.cache.keys[name], data, push) == [point];
    OneWrite(o.cfg.lib, s.disk.points, s.cache.keys[name].key.id, point);
    assert AddPoint(o.cfg, s.cache, name, data, clock, push).keys == s.cache.keys;
  }

  /** What is pushed for a point: the point itself, with raw data when it has none. */
  ghost predicate IsPushed(data: Sample, pushed: Sample) {
    && pushed.info == data.info
    && (data.values != [] || data.info.max == 0 ==> pushed.values == data.values)
    && (data.values == [] && data.info.max != 0 ==> IsMadeUp(data.info.perc, pushed.values))
  }

  ghost predicate IsMadeUp(p: Percentiles, values: seq<int>) {
    && |values| == 101
    && (forall i :: 0 <= i < 51 ==> values[i] == p.perc50)
    && (forall i :: 51 <= i < 81 ==> values[i] == p.perc80)
    && (forall i :: 81 <= i < 96 ==> values[i] == p.perc95)
    && (forall i :: 96 <= i < 100 ==> values[i] == p.perc99)
    && values[100] == p.perc100
  }

  lemma PushedIsPrepared(data: Sample, pushed: Sample)
    requires IsPushed(data, pushed)
    ensures pushed == Prepared(data)
  {
    if data.values == [] && data.info.max != 0 {
      assert pushed.values == MadeUp(data.info.perc);
    }
  }

  /** `handed` is what a push hands over: everything emitted, and the current point when the
      aggregation of it is on. */
  ghost predicate IsHanded(cfg: Config, out: PushOutcome, handed: seq<Info>) {
    if cfg.aggregateLastPoint && out.last.Some? then handed == out.emitted + [out.last.value] else handed == out.emitted
  }

  /** The last point of `ds` in its slot. */
  ghost predicate IsLastOfSlot(ds: seq<Info>, i: int) {
    0 <= i < |ds| && forall j :: i < j < |ds| ==> ds[j].ts != ds[i].ts
  }

  lemma {:induction false} LastOfSlot(ds: seq<Info>, i: nat)
    requires IsLastOfSlot(ds, i)
    ensures LastAt(ds, ds[i].ts) == Some(ds[i])
  {
    if i < |ds| - 1 {
      var rest := ds[..|ds| - 1];
      assert rest[i] == ds[i];
      LastOfSlot(rest, i);
    }
  }

  /** In `e` every slot of `ds` holds the last point of `ds` in it, and nothing else is new. */
  ghost predicate Written(d: Points, e: Points, id: nat, ds: seq<Info>) {
    && (forall i :: IsLastOfSlot(ds, i) ==> (id, ds[i].ts) in e && e[(id, ds[i].ts)] == ds[i])
    && (forall k: PointKey :: k.0 != id || !HasSlot(ds, k.1) ==> (k in e <==> k in d) && (k in d ==> e[k] == d[k]))
  }

  lemma SetAllWrites(d: Points, id: nat, ds: seq<Info>)
    ensures Written(d, SetAll(d, id, ds), id, ds)
  {
    forall i | IsLastOfSlot(ds, i) ensures (id, ds[i].ts) in SetAll(d, id, ds) && SetAll(d, id, ds)[(id, ds[i].ts)] == ds[i] {
      LastOfSlot(ds, i);
      SetAllAt(d, id, ds, (id, ds[i].ts));
    }
    forall k: PointKey | k.0 != id || !HasSlot(ds, k.1)
      ensures (k in SetAll(d, id, ds) <==> k in d) && (k in d ==> SetAll(d, id, ds)[k] == d[k])
    {
      SetAllAt(d, id, ds, k);
    }
  }

  /** The point is not late for the name, and `handed` is what its push hands over. */
  ghost predicate Goes(o: Settings, s: System, name: string, data: Sample, push: Sample -> PushOutcome, pushed: Sample, handed: seq<Info>) {
    && (data.info.ts == 0 || data.info.ts >= TimeFor(o.cfg, s.cache, name, data.info.ts))
    && IsPushed(data, pushed) && IsHanded(o.cfg, push(pushed), handed)
  }

  lemma GoesThrough(o: Settings, s: System, name: string, data: Sample, push: Sample -> PushOutcome, pushed: Sample, handed: seq<Info>)
    requires Goes(o, s, name, data, push, pushed, handed)
    ensures pushed == Prepared(data) && handed == Emissions(o.cfg, push(pushed))
    ensures !IsLate(Touched(o.cfg, s.cache, name, data.info.ts), data)
  {
    PushedIsPrepared(data, pushed);
  }

  /** A point that is not late is pushed; all that is handed over is observed, in order, and the
      record follows. */
  lemma PushedIsObserved(o: Settings, s: System, name: string, data: Sample, clock: int, push: Sample -> PushOutcome,
                         pushed: Sample, handed: seq<Info>)
    requires Goes(o, s, name, data, push, pushed, handed)
    ensures var id, t := IdFor(s.cache, name), AddTo(o, s, name, data, clock, push);
            var key := StoredKey(id, Observe(RecordFor(s.cache, name), handed));
            && t.cache.keys == s.cache.keys[name := Aggregator(key, push(pushed).current)]
            && t.cache.counter == (if name in s.cache.keys then s.cache.counter else id)
            && t.disk.keys == s.disk.keys[name := key]
  {
    GoesThrough(o, s, name, data, push, pushed, handed);
  }

  /** And the series of the name holds the points handed over. */
  lemma PushedIsStored(o: Settings, s: System, name: string, data: Sample, clock: int, push: Sample -> PushOutcome,
                       pushed: Sample, handed: seq<Info>)
    requires Goes(o, s, name, data, push, pushed, handed)
    ensures Written(s.disk.points, AddTo(o, s, name, data, clock, push).disk.points, IdFor(s.cache, name), handed)
  {
    GoesThrough(o, s, name, data, push, pushed, handed);
    SetAllWrites(s.disk.points, IdFor(s.cache, name), handed);
  }

  // ----- merge

  /** A merge observes the aligned points in order and leaves the aggregator's time alone; a new
      aggregator is made at the time of the last point.  What it stores: MergeStores. */
  lemma MergeIsRecorded(o: Settings, s: System, name: string, list: seq<Info>, clock: int)
    requires list != []
    ensures var id, t := IdFor(s.cache, name), MergeTo(o, s, name, list, clock);
            var key := StoredKey(id, Observe(RecordFor(s.cache, name), Aligned(o.cfg.lib, list)));
            && t.cache.keys == s.cache.keys[name := Aggregator(key, TimeFor(o.cfg, s.cache, name, list[|list| - 1].ts))]
            && t.cache.counter == (if name in s.cache.keys then s.cache.counter else id)
            && t.disk.keys == s.disk.keys[name := key]
  {
  }

  // ----- del and gc

  /** Deleting a name takes its entry, its record and its points, and nothing of any other. */
  lemma DelTakesOnlyIts(s: System, name: string)
    requires name in s.cache.keys
    ensures var id, t := s.cache.keys[name].key.id, Del(s, name);
            && t.cache.counter == s.cache.counter
            && (forall n :: n in t.cache.keys <==> n in s.cache.keys && n != name)
            && (forall n :: n in t.cache.keys ==> t.cache.keys[n] == s.cache.keys[n])
            && (forall n :: n in t.cache.times <==> n in s.cache.times && n != name)
            && (forall n :: n in t.cache.times ==> t.cache.times[n] == s.cache.times[n])
            && (forall n :: n in t.disk.keys <==> n in s.disk.keys && n != name)
            && (forall n :: n in t.disk.keys ==> t.disk.keys[n] == s.disk.keys[n])
            && (forall k: PointKey :: k in t.disk.points <==> k in s.disk.points && (k.0 != id || k.1 < 0))
            && (forall k: PointKey :: k in t.disk.points ==> t.disk.points[k] == s.disk.points[k])
  {
  }

  /** A collection takes the expired names out of the cache; it changes nothing else there and
      nothing on disk. */
  lemma GcTakesOnlyExpired(o: Settings, s: System, clock: int)
    requires IndexesAgree(o.cfg, s.cache)
    ensures var t := Gc(o, s, clock);
            && t.disk == s.disk && t.cache.counter == s.cache.counter
            && (forall n :: n in t.cache.keys <==>
                            n in s.cache.keys && (o.cfg.gcInterval == 0 || s.cache.times[n] >= clock - o.cfg.ttl))
            && (forall n :: n in t.cache.keys ==> t.cache.keys[n] == s.cache.keys[n])
            && (forall n :: n in t.cache.times ==> n in t.cache.keys && t.cache.times[n] == s.cache.times[n])
  {
  }

  // ----- open

  /** `q` is the update time in clock units, rounded down, or 1 when that is 0. */
  ghost predicate IsClockTime(resolution: int, lastUpdate: int, q: int) {
    if lastUpdate < resolution then q == 1 else q * resolution <= lastUpdate < q * resolution + resolution
  }

  lemma ClockTimeIsInitTime(cfg: Config, r: StoredName, q: int)
    requires 0 <= r.key.values.lastUpdate && IsClockTime(cfg.resolution, r.key.values.lastUpdate, q)
    ensures q == InitTime(cfg, r)
  {
    var u, b := r.key.values.lastUpdate, cfg.resolution;
    Arithmetic.TruncDivIsQuotient(u, b);
    var p := Arithmetic.TruncDiv(u, b);
    QuotientUnique(u, b, p, if u < b then 0 else q);
  }

  lemma QuotientUnique(u: int, b: int, p: int, q: int)
    requires b > 0 && p * b <= u < p * b + b && q * b <= u < q * b + b
    ensures p == q
  {
    if p < q { Multiples(p + 1, q, b); }
    if q < p { Multiples(q + 1, p, b); }
  }

  lemma Multiples(p: int, q: int, b: int)
    requires p <= q && b > 0
    ensures p * b <= q * b
  {
  }

  lemma {:induction false} InitAllTimes(cfg: Config, records: seq<StoredName>, i: nat)
    requires cfg.gcInterval != 0 && DistinctNames(records) && i < |records|
    ensures records[i].name in InitAll(cfg, EMPTY, records).times
    ensures InitAll(cfg, EMPTY, records).times[records[i].name] == InitTime(cfg, records[i])
  {
    var rest, r := records[..|records| - 1], records[|records| - 1];
    NamesInExtend(records);
    InitAllKeys(cfg, rest);
    if i < |rest| {
      InitAllTimes(cfg, rest, i);
      assert rest[i] == records[i] && records[i].name != records[|rest|].name;
    }
  }

  lemma LoadTime(o: Settings, d: Disk, n: string, q: int)
    requires o.cfg.gcInterval != 0 && n in d.keys && 0 <= d.keys[n].values.lastUpdate
    requires IsClockTime(o.cfg.resolution, d.keys[n].values.lastUpdate, q)
    ensures n in Load(o, d).times && Load(o, d).times[n] == q
  {
    var records := Records(d.keys);
    RecordsDistinct(d.keys);
    var i := RecordOf(d.keys, n);
    InitAllTimes(o.cfg, records, i);
    ClockTimeIsInitTime(o.cfg, records[i], q);
  }

  /** With gc on, opening keeps a recorded name exactly when its update time, in clock units, is
      not before T - TTL; that is also its recorded time. */
  lemma OpenKeepsIff(o: Settings, d: Disk, clock: int, n: string, q: int)
    requires o.cfg.gcInterval != 0 && n in d.keys && 0 <= d.keys[n].values.lastUpdate
    requires IsClockTime(o.cfg.resolution, d.keys[n].values.lastUpdate, q)
    ensures n in Open(o, d, clock).cache.keys <==> q >= clock - o.cfg.ttl
    ensures n in Open(o, d, clock).cache.keys ==> n in Open(o, d, clock).cache.times && Open(o, d, clock).cache.times[n] == q
  {
    LoadKeys(o, d);
    LoadTime(o, d, n, q);
    CollectRemovesExactly(o.cfg, Load(o, d), clock);
  }

  /** No other name is opened, the disk stays, and without gc every recorded name is kept. */
  lemma OpenAddsNothing(o: Settings, d: Disk, clock: int, n: string)
    ensures Open(o, d, clock).disk == d
    ensures n in Open(o, d, clock).cache.keys ==> n in d.keys
    ensures o.cfg.gcInterval == 0 ==> (n in Open(o, d, clock).cache.keys <==> n in d.keys)
  {
    LoadKeys(o, d);
    if o.cfg.gcInterval == 0 { NothingToCollect(o.cfg, Load(o, d), clock); }
  }

  /** Over whole runs: a restart with gc on, clean or not, keeps exactly the recorded names that
      were updated late enough. */
  lemma RestartKeepsIff(o: Settings, steps: seq<Step>, restart: Step, n: string, q: int)
    requires o.cfg.lib.Contract() && o.cfg.gcInterval != 0
    requires AllAllowed(o, FRESH, steps) && restart.DoRestart? && Allowed(o, Run(o, FRESH, steps), restart)
    requires n in Run(o, FRESH, steps).disk.keys
    requires IsClockTime(o.cfg.resolution, Run(o, FRESH, steps).disk.keys[n].values.lastUpdate, q)
    ensures n in Do(o, Run(o, FRESH, steps), restart).cache.keys <==> q >= restart.clock - o.cfg.ttl
  {
    FreshHasInvariant(o);
    RunKeepsInvariant(o, FRESH, steps);
    var s := Run(o, FRESH, steps);
    LeftKeys(o, s, restart);
    OpenKeepsIff(o, Left(o, s, restart), restart.clock, n, q);
  }

  /** The separator of a loaded name begins at its update time and is seeded with its stored
      point. */
  lemma LoadedCurrent(o: Settings, d: Disk, n: string)
    requires n in d.keys
    ensures var v := d.keys[n].values;
            var point := Info(v.count.ts, v.count.value, v.lossy.value, v.max.min.value, v.max.max.value, v.max.avg.value,
                              Percentiles(0, 0, 0, 0, 0));
            n in Load(o, d).keys && Load(o, d).keys[n].current == o.cfg.lib.seed(o.cfg.lib.begin(v.lastUpdate), point)
  {
    LoadAt(o, d, n);
  }

  // ----- close

  ghost predicate NamesDiffer(released: seq<StoredInfo>) {
    forall i, j :: 0 <= i < j < |released| ==> released[i].record.name != released[j].record.name
  }

  ghost predicate IdsDiffer(c: Cache) {
    forall n, m :: n in c.keys && m in c.keys && c.keys[n].key.id == c.keys[m].key.id ==> n == m
  }

  /** The loop of `close` stores the points released for a name under its id ... */
  lemma {:induction false} StoreReleasedHas(c: Cache, d: Disk, released: seq<StoredInfo>, i: nat, k: PointKey)
    requires forall j :: 0 <= j < |released| ==> released[j].record.name in c.keys
    requires NamesDiffer(released) && IdsDiffer(c)
    requires i < |released| && k.0 == c.keys[released[i].record.name].key.id && LastAt(released[i].points, k.1).Some?
    ensures k in StoreReleased(c, d, released).points
    ensures StoreReleased(c, d, released).points[k] == LastAt(released[i].points, k.1).value
  {
    var rest, r := released[..|released| - 1], released[|released| - 1];
    SetAllAt(StoreReleased(c, d, rest).points, c.keys[r.record.name].key.id, r.points, k);
    if i < |rest| {
      assert rest[i] == released[i] && released[i].record.name != released[|rest|].record.name;
      StoreReleasedHas(c, d, rest, i, k);
    }
  }

  /** ... and no others. */
  lemma {:induction false} StoreReleasedLacks(c: Cache, d: Disk, released: seq<StoredInfo>, k: PointKey)
    requires forall j :: 0 <= j < |released| ==> released[j].record.name in c.keys
    requires forall j :: 0 <= j < |released| ==>
                           k.0 != c.keys[released[j].record.name].key.id || LastAt(released[j].points, k.1).None?
    ensures k in StoreReleased(c, d, released).points <==> k in d.points
    ensures k in d.points ==> StoreReleased(c, d, released).points[k] == d.points[k]
  {
    if released != [] {
      var rest, r := released[..|released| - 1], released[|released| - 1];
      assert forall j :: 0 <= j < |rest| ==> rest[j] == released[j];
      SetAllAt(StoreReleased(c, d, rest).points, c.keys[r.record.name].key.id, r.points, k);
      StoreReleasedLacks(c, d, rest, k);
    }
  }

  /** Closing stores the last point of every cached name that has one, when the aggregation of
      last points is on ... */
  lemma CloseStoresLast(o: Settings, s: System, pop: string -> Option<Info>, n: string)
    requires Invariant(o, s) && n in s.cache.keys && o.cfg.aggregateLastPoint && pop(n).Some?
    ensures var k := (s.cache.keys[n].key.id, pop(n).value.ts);
            k in Close(o, s, pop).points && Close(o, s, pop).points[k] == pop(n).value
  {
    var released, names := Released(o.cfg, s.cache, pop), Names.Sorted(s.cache.keys.Keys);
    Names.SortedDistinct(s.cache.keys.Keys);
    CachedIdsDiffer(o, s);
    assert n in names;
    var i :| 0 <= i < |names| && names[i] == n;
    assert released[i].record.name == n && released[i].points == [pop(n).value];
    StoreReleasedHas(s.cache, s.disk, released, i, (s.cache.keys[n].key.id, pop(n).value.ts));
  }

  lemma CachedIdsDiffer(o: Settings, s: System)
    requires Invariant(o, s)
    ensures IdsDiffer(s.cache)
  {
    assert forall n :: n in s.cache.keys ==> Holds(s, n, s.cache.keys[n].key.id);
  }

  /** ... and every other point is as it was. */
  lemma CloseStoresOnlyLast(o: Settings, s: System, pop: string -> Option<Info>, k: PointKey)
    requires forall n :: n in s.cache.keys && o.cfg.aggregateLastPoint && pop(n).Some? ==>
                           k != (s.cache.keys[n].key.id, pop(n).value.ts)
    ensures k in Close(o, s, pop).points <==> k in s.disk.points
    ensures k in s.disk.points ==> Close(o, s, pop).points[k] == s.disk.points[k]
  {
    StoreReleasedLacks(s.cache, s.disk, Released(o.cfg, s.cache, pop), k);
  }

  /** Releasing pops the last point of a name into its record, after the record was taken. */
  lemma ReleaseObserves(cfg: Config, c: Cache, pop: string -> Option<Info>, n: string, f: Field)
    requires n in c.keys
    ensures n in Popped(cfg, c, pop).keys
    ensures var was, now := Pair(c.keys[n].key.values, f), Pair(Popped(cfg, c, pop).keys[n].key.values, f);
            if cfg.aggregateLastPoint && pop(n).Some? && was.value < Contribution(pop(n).value, f)
            then now == StoredPair(Contribution(pop(n).value, f), pop(n).value.ts)
            else now == was
  {
    var v := c.keys[n].key.values;
    if cfg.aggregateLastPoint && pop(n).Some? {
      assert [pop(n).value][..0] == [];
      assert Observe(v, [pop(n).value]) == UpdateInfo(Observe(v, []), pop(n).value);
      UpdateInfoAt(v, pop(n).value, f);
    }
  }
}
