/** What holds in every state of every run of the storage, restarts included. */
module StorageRuns {
  import opened Wrappers
  import opened Wrtstat
  import opened StoredKeys
  import opened KeyAggregators
  import opened DataStore
  import opened KeyStorages
  import opened CacheSpec
  import opened StorageSpec
  import Names

  // ----- loading and storing, name by name

  function NamesIn(records: seq<StoredName>): set<string> {
    set r | r in records :: r.name
  }

  ghost predicate DistinctNames(records: seq<StoredName>) {
    forall i, j :: 0 <= i < j < |records| ==> records[i].name != records[j].name
  }

  lemma NamesInExtend(records: seq<StoredName>)
    requires records != []
    ensures NamesIn(records) == NamesIn(records[..|records| - 1]) + {records[|records| - 1].name}
    ensures DistinctNames(records) ==> DistinctNames(records[..|records| - 1])
    ensures DistinctNames(records) ==> records[|records| - 1].name !in NamesIn(records[..|records| - 1])
  {
    var rest, last := records[..|records| - 1], records[|records| - 1];
    assert records == rest + [last];
    if DistinctNames(records) {
      assert forall i :: 0 <= i < |rest| ==> records[i].name != records[|rest|].name;
    }
  }

  lemma {:induction false} InitAllKeys(cfg: Config, records: seq<StoredName>)
    ensures IndexesAgree(cfg, InitAll(cfg, EMPTY, records))
    ensures InitAll(cfg, EMPTY, records).keys.Keys == NamesIn(records)
  {
    if records != [] {
      var rest, s := records[..|records| - 1], records[|records| - 1];
      InitAllKeys(cfg, rest);
      InitKeepsIndexes(cfg, InitAll(cfg, EMPTY, rest), s);
      NamesInExtend(records);
    }
  }

  lemma InitNew(cfg: Config, c: Cache, s: StoredName)
    requires s.name !in c.keys
    ensures Init(cfg, c, s).keys == c.keys[s.name := Restored(cfg, s.key)]
    ensures Init(cfg, c, s).counter == if c.counter < s.key.id then s.key.id else c.counter
  {
  }

  lemma InitAllStep(cfg: Config, records: seq<StoredName>)
    requires DistinctNames(records) && records != []
    ensures var s := records[|records| - 1];
            InitAll(cfg, EMPTY, records).keys
            == InitAll(cfg, EMPTY, records[..|records| - 1]).keys[s.name := Restored(cfg, s.key)]
  {
    var rest, s := records[..|records| - 1], records[|records| - 1];
    NamesInExtend(records);
    InitAllKeys(cfg, rest);
    InitNew(cfg, InitAll(cfg, EMPTY, rest), s);
  }

  lemma {:induction false} InitAllAt(cfg: Config, records: seq<StoredName>, i: nat)
    requires DistinctNames(records) && i < |records|
    ensures records[i].name in InitAll(cfg, EMPTY, records).keys
    ensures Same(InitAll(cfg, EMPTY, records).keys[records[i].name], Restored(cfg, records[i].key))
  {
    var rest := records[..|records| - 1];
    InitAllStep(cfg, records);
    if i < |rest| {
      NamesInExtend(records);
      InitAllAt(cfg, rest, i);
      assert rest[i] == records[i] && records[i].name != records[|rest|].name;
    }
  }

  lemma {:induction false} InitAllCovers(cfg: Config, records: seq<StoredName>, i: nat)
    requires i < |records|
    ensures records[i].key.id <= InitAll(cfg, EMPTY, records).counter
  {
    if i < |records| - 1 {
      InitAllCovers(cfg, records[..|records| - 1], i);
    }
  }

  lemma {:induction false} InitAllCounter(cfg: Config, records: seq<StoredName>)
    ensures var c := InitAll(cfg, EMPTY, records);
            c.counter > 0 ==> exists i :: 0 <= i < |records| && records[i].key.id == c.counter
  {
    if records != [] {
      var rest, s := records[..|records| - 1], records[|records| - 1];
      InitAllCounter(cfg, rest);
      var c, d := InitAll(cfg, EMPTY, records), InitAll(cfg, EMPTY, rest);
      if c.counter == d.counter && c.counter > 0 {
        var i :| 0 <= i < |rest| && rest[i].key.id == c.counter;
        assert records[i] == rest[i];
      } else {
        assert c.counter > 0 ==> records[|rest|].key.id == c.counter;
      }
    }
  }

  /** A cache loaded from the key store has the names of the store, and its counter is one of
      the ids loaded. */
  lemma LoadKeys(o: Settings, d: Disk)
    ensures IndexesAgree(o.cfg, Load(o, d))
    ensures Load(o, d).keys.Keys == d.keys.Keys
    ensures Load(o, d).counter > 0 ==> exists n :: n in d.keys && d.keys[n].id == Load(o, d).counter
  {
    var records := Records(d.keys);
    InitAllKeys(o.cfg, records);
    InitAllCounter(o.cfg, records);
    forall n ensures n in NamesIn(records) <==> n in d.keys {
      if n in d.keys {
        var i := RecordOf(d.keys, n);
        assert records[i] in records;
      }
    }
  }

  /** Each name is loaded with its id and its restored record, and the counter covers its id. */
  lemma LoadAt(o: Settings, d: Disk, n: string)
    requires n in d.keys
    ensures n in Load(o, d).keys
    ensures Same(Load(o, d).keys[n], Restored(o.cfg, d.keys[n]))
    ensures d.keys[n].id <= Load(o, d).counter
  {
    var records := Records(d.keys);
    RecordsDistinct(d.keys);
    var i := RecordOf(d.keys, n);
    InitAllAt(o.cfg, records, i);
    InitAllCovers(o.cfg, records, i);
  }

  /** The loop of `close` records every released name and touches no other record. */
  lemma {:induction false} StoreReleasedKey(c: Cache, d: Disk, released: seq<StoredInfo>, n: string)
    requires forall i :: 0 <= i < |released| ==> released[i].record.name in c.keys
    requires forall i :: 0 <= i < |released| ==> Same(released[i].record.key, c.keys[released[i].record.name].key)
    ensures var e := StoreReleased(c, d, released);
            if exists i :: 0 <= i < |released| && released[i].record.name == n
            then n in e.keys && n in c.keys && Same(e.keys[n], c.keys[n].key)
            else (n in e.keys <==> n in d.keys) && (n in d.keys ==> Same(e.keys[n], d.keys[n]))
  {
    if released != [] {
      var rest, r := released[..|released| - 1], released[|released| - 1];
      StoreReleasedKey(c, d, rest, n);
      if r.record.name != n && exists i :: 0 <= i < |released| && released[i].record.name == n {
        var i :| 0 <= i < |released| && released[i].record.name == n;
        assert rest[i].record.name == n;
      }
    }
  }

  /** It writes points of cached names only, and none before time 0. */
  lemma {:induction false} StoreReleasedPoint(c: Cache, d: Disk, released: seq<StoredInfo>, k: PointKey)
    requires forall i :: 0 <= i < |released| ==> released[i].record.name in c.keys
    requires forall i, j :: 0 <= i < |released| && 0 <= j < |released[i].points| ==> 0 <= released[i].points[j].ts
    requires k in StoreReleased(c, d, released).points
    ensures k in d.points || (0 <= k.1 && exists n :: n in c.keys && c.keys[n].key.id == k.0)
  {
    if released != [] {
      var rest, r := released[..|released| - 1], released[|released| - 1];
      assert forall i :: 0 <= i < |rest| ==> rest[i] == released[i];
      var id := c.keys[r.record.name].key.id;
      SetAllAt(StoreReleased(c, d, rest).points, id, r.points, k);
      if k in StoreReleased(c, d, rest).points {
        StoreReleasedPoint(c, d, rest, k);
      }
    }
  }

  /** A clean close leaves a record of every cached name ... */
  lemma CloseKey(o: Settings, s: System, pop: string -> Option<Info>, n: string)
    ensures n in s.cache.keys ==> n in Close(o, s, pop).keys && Same(Close(o, s, pop).keys[n], s.cache.keys[n].key)
    ensures n !in s.cache.keys ==> (n in Close(o, s, pop).keys <==> n in s.disk.keys)
                                   && (n in s.disk.keys ==> Same(Close(o, s, pop).keys[n], s.disk.keys[n]))
  {
    var released := Released(o.cfg, s.cache, pop);
    var names := Names.Sorted(s.cache.keys.Keys);
    StoreReleasedKey(s.cache, s.disk, released, n);
    if n in s.cache.keys {
      assert n in names;
      var i :| 0 <= i < |names| && names[i] == n;
      assert released[i].record.name == n;
    }
  }

  /** ... and points of cached names only. */
  lemma ClosePoint(o: Settings, s: System, pop: string -> Option<Info>, k: PointKey)
    requires forall n :: n in s.cache.keys && pop(n).Some? ==> 0 <= pop(n).value.ts
    requires k in Close(o, s, pop).points
    ensures k in s.disk.points || (0 <= k.1 && exists n :: n in s.cache.keys && s.cache.keys[n].key.id == k.0)
  {
    StoreReleasedPoint(s.cache, s.disk, Released(o.cfg, s.cache, pop), k);
  }

  // ----- the invariant

  /** Name `n` has id `id`, in the cache or in the key store. */
  ghost predicate Holds(s: System, n: string, id: nat) {
    || (n in s.cache.keys && s.cache.keys[n].key.id == id)
    || (n in s.disk.keys && s.disk.keys[n].id == id)
  }

  /** No id is held by two names, and the counter covers all ids. */
  ghost predicate IdsOk(s: System) {
    && (forall n, id: nat :: Holds(s, n, id) ==> 0 < id <= s.cache.counter)
    && (forall n, m, id: nat :: Holds(s, n, id) && Holds(s, m, id) ==> n == m)
  }

  /** The record of a cached name is on disk as it is in the cache. */
  ghost predicate Recorded(s: System, n: string)
    requires n in s.cache.keys
  {
    n in s.disk.keys && Same(s.disk.keys[n], s.cache.keys[n].key)
  }

  /** The pairs of a record are normal and its update time is not negative. */
  ghost predicate Settled(v: StoredValues) { Normal(v) && 0 <= v.lastUpdate }

  ghost predicate IsTime(lib: Library, t: int) { 0 <= t && lib.align(t) == t }

  ghost predicate CachedOk(o: Settings, s: System, n: string)
    requires n in s.cache.keys
  {
    Recorded(s, n) && IsTime(o.cfg.lib, s.cache.keys[n].current)
  }

  ghost predicate Invariant(o: Settings, s: System) {
    && IdsOk(s)
    && IndexesAgree(o.cfg, s.cache)
    && (forall n :: n in s.cache.keys ==> CachedOk(o, s, n))
    && (forall n :: n in s.disk.keys ==> Settled(s.disk.keys[n].values))
  }

  lemma IdsAfter(s: System, t: System, name: string)
    requires IdsOk(s) && s.cache.counter <= t.cache.counter
    requires forall n, id: nat :: Holds(t, n, id) ==> Holds(s, n, id) || (n == name && id == t.cache.counter > s.cache.counter)
    ensures IdsOk(t)
  {
  }

  /** What an add or a merge does to a name: its aggregator receives points, and its record
      follows, unless the name was cached before and received none. */
  ghost predicate Receives(o: Settings, s: System, t: System, name: string, ts: int, xs: seq<Info>, current: int, recorded: bool) {
    var a := Touched(o.cfg, s.cache, name, ts);
    var b := Receive(a, xs, current);
    && t.cache.keys == s.cache.keys[name := b]
    && t.cache.counter == (if name in s.cache.keys then s.cache.counter else s.cache.counter + 1)
    && t.disk.keys == (if recorded then s.disk.keys[name := b.key] else s.disk.keys)
    && (recorded || (xs == [] && name in s.cache.keys))
    && IndexesAgree(o.cfg, t.cache)
  }

  /** The points an add lets the aggregator of its name receive, and its time afterwards. */
  function Got(o: Settings, s: System, name: string, data: Sample, push: Sample -> PushOutcome): (seq<Info>, int) {
    var a := Touched(o.cfg, s.cache, name, data.info.ts);
    var out := push(Prepared(data));
    if IsLate(a, data) then ([], a.current) else (Emissions(o.cfg, out), out.current)
  }

  /** The first point of a name is not late, so only cached names are added to without a record. */
  lemma AddReceives(o: Settings, s: System, name: string, data: Sample, clock: int, push: Sample -> PushOutcome)
    requires o.cfg.lib.Contract() && IndexesAgree(o.cfg, s.cache)
    ensures var got := Got(o, s, name, data, push);
            Receives(o, s, AddTo(o, s, name, data, clock, push), name, data.info.ts, got.0, got.1,
                     !IsLate(Touched(o.cfg, s.cache, name, data.info.ts), data))
  {
    TouchKeepsIndexes(o.cfg, s.cache, name, data.info.ts, clock);
    FirstIsNotLate(o.cfg, s.cache.counter + 1, data);
  }

  lemma MergeReceives(o: Settings, s: System, name: string, list: seq<Info>, clock: int)
    requires IndexesAgree(o.cfg, s.cache) && list != []
    ensures Receives(o, s, MergeTo(o, s, name, list, clock), name, LastTime(list), Aligned(o.cfg.lib, list),
                     Touched(o.cfg, s.cache, name, LastTime(list)).current, true)
  {
    TouchKeepsIndexes(o.cfg, s.cache, name, LastTime(list), clock);
  }

  /** The points `ds` are not before time 0. */
  ghost predicate NotBefore0(ds: seq<Info>) {
    forall i :: 0 <= i < |ds| ==> 0 <= ds[i].ts
  }

  /** The aggregator an allowed step finds or makes. */
  lemma TouchedOk(o: Settings, s: System, name: string, ts: int)
    requires o.cfg.lib.Contract() && Invariant(o, s) && 0 <= ts
    ensures var a := Touched(o.cfg, s.cache, name, ts);
            Settled(a.key.values) && IsTime(o.cfg.lib, a.current)
            && (if name in s.cache.keys then Holds(s, name, a.key.id) else a.key.id == s.cache.counter + 1)
  {
    PristineIsNormal();
    assert name in s.cache.keys ==> CachedOk(o, s, name);
  }

  lemma GotOk(o: Settings, s: System, name: string, data: Sample, clock: int, push: Sample -> PushOutcome)
    requires o.cfg.lib.Contract() && Invariant(o, s) && Allowed(o, s, DoAdd(name, data, clock, push))
    ensures var got := Got(o, s, name, data, push); NotBefore0(got.0) && IsTime(o.cfg.lib, got.1)
  {
    TouchedOk(o, s, name, data.info.ts);
  }

  lemma ObserveKeepsSettled(v: StoredValues, xs: seq<Info>)
    requires Settled(v) && NotBefore0(xs)
    ensures Settled(Observe(v, xs))
  {
    ObserveKeepsNormal(v, xs);
  }

  lemma ReceivingKeepsInvariant(o: Settings, s: System, t: System, name: string, ts: int, xs: seq<Info>, current: int, recorded: bool)
    requires o.cfg.lib.Contract() && 0 <= ts && NotBefore0(xs) && IsTime(o.cfg.lib, current)
    requires Invariant(o, s) && Receives(o, s, t, name, ts, xs, current, recorded)
    ensures Invariant(o, t)
  {
    TouchedOk(o, s, name, ts);
    var a := Touched(o.cfg, s.cache, name, ts);
    forall n, id: nat | Holds(t, n, id)
      ensures Holds(s, n, id) || (n == name && id == t.cache.counter > s.cache.counter)
    {
    }
    IdsAfter(s, t, name);
    ObserveKeepsSettled(a.key.values, xs);
    forall n | n in t.cache.keys ensures CachedOk(o, t, n) {
      assert n in s.cache.keys ==> CachedOk(o, s, n);
    }
  }

  lemma RemovalKeepsInvariant(o: Settings, s: System, name: string, clock: int)
    requires Invariant(o, s)
    ensures Invariant(o, Del(s, name))
    ensures Invariant(o, Gc(o, s, clock))
  {
    var d, g := Del(s, name), Gc(o, s, clock);
    assert forall n, id: nat :: Holds(d, n, id) ==> Holds(s, n, id);
    assert forall n, id: nat :: Holds(g, n, id) ==> Holds(s, n, id);
    IdsAfter(s, d, name);
    IdsAfter(s, g, name);
    forall n | n in d.cache.keys ensures CachedOk(o, d, n) { assert CachedOk(o, s, n); }
    forall n | n in g.cache.keys ensures CachedOk(o, g, n) { assert CachedOk(o, s, n); }
  }

  /** A settled record is loaded as it is. */
  lemma LoadGivesBack(o: Settings, d: Disk, n: string)
    requires o.cfg.lib.Contract() && n in d.keys && Settled(d.keys[n].values)
    ensures n in Load(o, d).keys && Same(Load(o, d).keys[n].key, d.keys[n])
    ensures IsTime(o.cfg.lib, Load(o, d).keys[n].current)
    ensures d.keys[n].id <= Load(o, d).counter
  {
    LoadAt(o, d, n);
    RestoreExactlyWhen(d.keys[n].values);
    var v := d.keys[n].values;
    assert o.cfg.lib.begin(v.lastUpdate) <= o.cfg.lib.seed(o.cfg.lib.begin(v.lastUpdate), SeedPoint(v));
  }

  /** A system opened from a disk with distinct ids and settled records. */
  lemma OpenEstablishesInvariant(o: Settings, d: Disk, clock: int)
    requires o.cfg.lib.Contract()
    requires forall n :: n in d.keys ==> d.keys[n].id > 0 && Settled(d.keys[n].values)
    requires forall n, m :: n in d.keys && m in d.keys && d.keys[n].id == d.keys[m].id ==> n == m
    ensures Invariant(o, System(Load(o, d), d))
    ensures Invariant(o, Open(o, d, clock))
  {
    var t := System(Load(o, d), d);
    LoadKeys(o, d);
    forall n | n in t.cache.keys
      ensures CachedOk(o, t, n) && t.cache.keys[n].key.id == d.keys[n].id <= t.cache.counter
    {
      LoadGivesBack(o, d, n);
    }
    assert forall n, id: nat :: Holds(t, n, id) ==> n in d.keys && d.keys[n].id == id;
    RemovalKeepsInvariant(o, t, "", clock);
  }

  /** Since every cached name is recorded, a restart finds the same records whether the storage
      was closed or not. */
  lemma LeftKeys(o: Settings, s: System, step: Step)
    requires Invariant(o, s) && step.DoRestart?
    ensures Left(o, s, step).keys == s.disk.keys
  {
    var d := Left(o, s, step);
    forall n ensures (n in d.keys <==> n in s.disk.keys) && (n in d.keys ==> Same(d.keys[n], s.disk.keys[n])) {
      CloseKey(o, s, step.pop, n);
      assert n in s.cache.keys ==> CachedOk(o, s, n);
    }
  }

  lemma RestartKeepsInvariant(o: Settings, s: System, step: Step)
    requires o.cfg.lib.Contract() && Invariant(o, s) && step.DoRestart?
    ensures Invariant(o, Do(o, s, step))
  {
    var d := Left(o, s, step);
    LeftKeys(o, s, step);
    assert forall n :: n in d.keys ==> Holds(s, n, d.keys[n].id);
    OpenEstablishesInvariant(o, d, step.clock);
  }

  lemma StepKeepsInvariant(o: Settings, s: System, step: Step)
    requires o.cfg.lib.Contract() && Invariant(o, s) && Allowed(o, s, step)
    ensures Invariant(o, Do(o, s, step))
  {
    match step
    case DoAdd(name, data, clock, push) =>
      var got := Got(o, s, name, data, push);
      AddReceives(o, s, name, data, clock, push);
      GotOk(o, s, name, data, clock, push);
      ReceivingKeepsInvariant(o, s, AddTo(o, s, name, data, clock, push), name, data.info.ts, got.0, got.1,
                              !IsLate(Touched(o.cfg, s.cache, name, data.info.ts), data));
    case DoMerge(name, list, clock) =>
      if list != [] {
        MergeReceives(o, s, name, list, clock);
        TouchedOk(o, s, name, LastTime(list));
        ReceivingKeepsInvariant(o, s, MergeTo(o, s, name, list, clock), name, LastTime(list), Aligned(o.cfg.lib, list),
                                Touched(o.cfg, s.cache, name, LastTime(list)).current, true);
      }
    case DoDel(name) => RemovalKeepsInvariant(o, s, name, 0);
    case DoGc(clock) => RemovalKeepsInvariant(o, s, "", clock);
    case DoRestart(_, _, _) => RestartKeepsInvariant(o, s, step);
  }

  /** Every state of every run, whatever it consists of, has the invariant: ids are never
      shared, and every cached name is recorded on disk with its id and its key info. */
  lemma {:induction false} RunKeepsInvariant(o: Settings, s: System, steps: seq<Step>)
    requires o.cfg.lib.Contract() && Invariant(o, s) && AllAllowed(o, s, steps)
    ensures Invariant(o, Run(o, s, steps))
  {
    if steps != [] {
      AllowedPrefix(o, s, steps);
      RunKeepsInvariant(o, s, steps[..|steps| - 1]);
      StepKeepsInvariant(o, Run(o, s, steps[..|steps| - 1]), steps[|steps| - 1]);
    }
  }

  lemma FreshHasInvariant(o: Settings)
    ensures Invariant(o, FRESH)
  {
  }

  /** Recovery: at any moment of any run, restarts and crashes included, loading what is on disk
      (without a close) rebuilds the id and the key info of every cached name. */
  lemma Recovery(o: Settings, steps: seq<Step>, n: string)
    requires o.cfg.lib.Contract() && AllAllowed(o, FRESH, steps)
    requires n in Run(o, FRESH, steps).cache.keys
    ensures n in Run(o, FRESH, steps).disk.keys && Run(o, FRESH, steps).disk.keys[n] == Run(o, FRESH, steps).cache.keys[n].key
    ensures n in Load(o, Run(o, FRESH, steps).disk).keys
    ensures Load(o, Run(o, FRESH, steps).disk).keys[n].key == Run(o, FRESH, steps).cache.keys[n].key
  {
    FreshHasInvariant(o);
    RunKeepsInvariant(o, FRESH, steps);
    var s := Run(o, FRESH, steps);
    assert CachedOk(o, s, n);
    LoadGivesBack(o, s.disk, n);
  }

  // ----- ids issued within a run

  /** Within a run no id is given back: a name that is new at the end got an id above every id
      loaded or issued before. */
  lemma {:induction false} NewIdsExceedOld(o: Settings, s: System, steps: seq<Step>, n: string)
    requires forall i :: 0 <= i < |steps| ==> !steps[i].DoRestart?
    ensures s.cache.counter <= Run(o, s, steps).cache.counter
    ensures n in Run(o, s, steps).cache.keys ==>
              var id := Run(o, s, steps).cache.keys[n].key.id;
              (n in s.cache.keys && id == s.cache.keys[n].key.id) || s.cache.counter < id <= Run(o, s, steps).cache.counter
  {
    if steps != [] {
      var rest, step := steps[..|steps| - 1], steps[|steps| - 1];
      NewIdsExceedOld(o, s, rest, n);
      var t := Run(o, s, rest);
      match step
      case DoAdd(name, data, clock, push) =>
      case DoMerge(name, list, clock) =>
      case DoDel(name) =>
      case DoGc(clock) =>
    }
  }
}
