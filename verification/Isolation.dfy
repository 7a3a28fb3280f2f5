/** Whose points are in the data store: isolation of the series from one another. */
module Isolation {
  import opened Wrappers
  import opened Wrtstat
  import opened KeyAggregators
  import opened Coalescing
  import opened DataStore
  import opened KeyStorages
  import opened CacheSpec
  import opened StorageSpec
  import opened StorageRuns

  // ----- what the steps write

  /** Writing to the series of a name adds points of that name only. */
  lemma WritesBelong(lib: Library, m: Points, id: nat, ds: seq<Info>, k: PointKey)
    requires NotBefore0(ds)
    ensures k in SetAll(m, id, ds) ==> k in m || (k.0 == id && 0 <= k.1)
    ensures k in IncAll(lib, m, id, ds) ==> k in m || (k.0 == id && 0 <= k.1)
  {
    SetAllAt(m, id, ds, k);
    IncAllKeys(lib, m, id, ds, k);
  }

  lemma MergedNotBefore0(lib: Library, list: seq<Info>)
    requires lib.Contract() && NotBefore0(list)
    ensures NotBefore0(Coalesce(lib, Aligned(lib, list)))
  {
    var xs := Aligned(lib, list);
    var up := Coalesce(lib, xs);
    forall i | 0 <= i < |up| ensures 0 <= up[i].ts {
      CoalesceConserves(lib, xs, up[i].ts);
      assert HasSlot(up, up[i].ts);
      var j :| 0 <= j < |xs| && xs[j].ts == up[i].ts;
      assert 0 <= lib.align(list[j].ts);
    }
  }

  /** Only points of `id` are new in `e`. */
  ghost predicate PointsFor(d: Points, e: Points, id: nat) {
    forall k: PointKey :: k in e ==> k in d || (k.0 == id && 0 <= k.1)
  }

  /** From `s` to `t` only the name may have come to the cache and to the records, both under
      its id in `t`, and only points of that id were added. */
  ghost predicate WritesFor(s: System, t: System, name: string) {
    && name in t.cache.keys && t.cache.keys.Keys == s.cache.keys.Keys + {name}
    && (forall n :: n in s.cache.keys ==> t.cache.keys[n].key.id == s.cache.keys[n].key.id)
    && t.disk.keys.Keys == s.disk.keys.Keys + {name} && t.disk.keys[name].id == t.cache.keys[name].key.id
    && (forall n :: n in s.disk.keys && n != name ==> t.disk.keys[n].id == s.disk.keys[n].id)
    && (name !in s.cache.keys ==> t.cache.keys[name].key.id == s.cache.counter + 1)
    && s.cache.counter <= t.cache.counter && 0 < t.cache.keys[name].key.id <= t.cache.counter
    && PointsFor(s.disk.points, t.disk.points, t.cache.keys[name].key.id)
  }

  lemma ReceivingWrites(o: Settings, s: System, t: System, name: string, ts: int, xs: seq<Info>, current: int, recorded: bool)
    requires Invariant(o, s) && Receives(o, s, t, name, ts, xs, current, recorded)
    requires PointsFor(s.disk.points, t.disk.points, Touched(o.cfg, s.cache, name, ts).key.id)
    ensures WritesFor(s, t, name)
  {
    assert name in s.cache.keys ==> CachedOk(o, s, name) && Holds(s, name, s.cache.keys[name].key.id);
  }

  lemma AddWrites(o: Settings, s: System, name: string, data: Sample, clock: int, push: Sample -> PushOutcome)
    requires o.cfg.lib.Contract() && Invariant(o, s) && Allowed(o, s, DoAdd(name, data, clock, push))
    ensures WritesFor(s, AddTo(o, s, name, data, clock, push), name)
  {
    var t := AddTo(o, s, name, data, clock, push);
    var got := Got(o, s, name, data, push);
    AddReceives(o, s, name, data, clock, push);
    AddPointsFor(o, s, name, data, clock, push);
    ReceivingWrites(o, s, t, name, data.info.ts, got.0, got.1, !IsLate(Touched(o.cfg, s.cache, name, data.info.ts), data));
  }

  lemma AddPointsFor(o: Settings, s: System, name: string, data: Sample, clock: int, push: Sample -> PushOutcome)
    requires o.cfg.lib.Contract() && Invariant(o, s) && Allowed(o, s, DoAdd(name, data, clock, push))
    ensures PointsFor(s.disk.points, AddTo(o, s, name, data, clock, push).disk.points,
                      Touched(o.cfg, s.cache, name, data.info.ts).key.id)
  {
    var a := Touched(o.cfg, s.cache, name, data.info.ts);
    var up := AddData(o.cfg, a, data, push);
    GotOk(o, s, name, data, clock, push);
    assert NotBefore0(up);
    forall k: PointKey
      ensures k in SetAll(s.disk.points, a.key.id, up) || k in IncAll(o.cfg.lib, s.disk.points, a.key.id, up) ==>
                k in s.disk.points || (k.0 == a.key.id && 0 <= k.1)
    {
      WritesBelong(o.cfg.lib, s.disk.points, a.key.id, up, k);
    }
  }

  lemma MergeWrites(o: Settings, s: System, name: string, list: seq<Info>, clock: int)
    requires o.cfg.lib.Contract() && Invariant(o, s) && Allowed(o, s, DoMerge(name, list, clock)) && list != []
    ensures WritesFor(s, MergeTo(o, s, name, list, clock), name)
  {
    var t := MergeTo(o, s, name, list, clock);
    var a := Touched(o.cfg, s.cache, name, LastTime(list));
    var up := Coalesce(o.cfg.lib, Aligned(o.cfg.lib, list));
    MergedNotBefore0(o.cfg.lib, list);
    forall k: PointKey ensures k in SetAll(s.disk.points, a.key.id, up) ==> k in s.disk.points || (k.0 == a.key.id && 0 <= k.1) {
      WritesBelong(o.cfg.lib, s.disk.points, a.key.id, up, k);
    }
    MergeReceives(o, s, name, list, clock);
    ReceivingWrites(o, s, t, name, LastTime(list), Aligned(o.cfg.lib, list), a.current, true);
  }

  // ----- without gc: every point belongs to a live name

  /** Some cached name has this id. */
  ghost predicate Live(s: System, id: nat) {
    exists n :: n in s.cache.keys && s.cache.keys[n].key.id == id
  }

  /** Every point belongs to a cached name and is not before time 0; every record is of a cached
      name. */
  ghost predicate Isolated(s: System) {
    && (forall k: PointKey :: k in s.disk.points ==> 0 <= k.1 && Live(s, k.0))
    && s.disk.keys.Keys <= s.cache.keys.Keys
  }

  lemma WritingKeepsIsolated(s: System, t: System, name: string)
    requires Isolated(s) && WritesFor(s, t, name)
    ensures Isolated(t)
  {
    forall k: PointKey | k in t.disk.points ensures 0 <= k.1 && Live(t, k.0) {
      if k in s.disk.points {
        var n :| n in s.cache.keys && s.cache.keys[n].key.id == k.0;
        assert n in t.cache.keys && t.cache.keys[n].key.id == k.0;
      }
    }
  }

  lemma DelKeepsIsolated(o: Settings, s: System, name: string)
    requires Isolated(s)
    ensures Isolated(Del(s, name))
  {
    var t := Del(s, name);
    if name in s.cache.keys {
      forall k: PointKey | k in t.disk.points ensures 0 <= k.1 && Live(t, k.0) {
        var n :| n in s.cache.keys && s.cache.keys[n].key.id == k.0;
        assert n != name;
        assert n in t.cache.keys && t.cache.keys[n] == s.cache.keys[n];
      }
    }
  }

  /** The points a restart finds are those there were, and after a close points of cached names. */
  lemma LeftPoint(o: Settings, s: System, step: Step, k: PointKey)
    requires Invariant(o, s) && step.DoRestart? && Allowed(o, s, step)
    requires k in Left(o, s, step).points
    ensures k in s.disk.points || (0 <= k.1 && Live(s, k.0))
  {
    forall n | n in s.cache.keys && step.pop(n).Some? ensures 0 <= step.pop(n).value.ts {
      assert CachedOk(o, s, n);
    }
    if step.clean {
      ClosePoint(o, s, step.pop, k);
    }
  }

  /** Without gc a restart, clean or not, gives every cached name back under its id and with its
      key info, and the series stay isolated. */
  lemma RestartGivesBack(o: Settings, s: System, step: Step)
    requires o.cfg.gcInterval == 0 && o.cfg.lib.Contract() && Invariant(o, s) && Isolated(s)
    requires step.DoRestart? && Allowed(o, s, step)
    ensures Isolated(Do(o, s, step))
    ensures Do(o, s, step).cache.keys.Keys == s.cache.keys.Keys
    ensures forall n :: n in s.cache.keys ==> Do(o, s, step).cache.keys[n].key == s.cache.keys[n].key
  {
    var d := Left(o, s, step);
    var t := Do(o, s, step);
    LeftKeys(o, s, step);
    LoadKeys(o, d);
    NothingToCollect(o.cfg, Load(o, d), step.clock);
    forall n | n in s.cache.keys ensures n in t.cache.keys && t.cache.keys[n].key == s.cache.keys[n].key {
      assert CachedOk(o, s, n);
      LoadGivesBack(o, d, n);
    }
    forall k: PointKey | k in t.disk.points ensures 0 <= k.1 && Live(t, k.0) {
      LeftPoint(o, s, step, k);
      var n :| n in s.cache.keys && s.cache.keys[n].key.id == k.0;
      assert n in t.cache.keys && t.cache.keys[n].key.id == k.0;
    }
  }

  lemma StepKeepsIsolated(o: Settings, s: System, step: Step)
    requires o.cfg.gcInterval == 0 && o.cfg.lib.Contract()
    requires Invariant(o, s) && Isolated(s) && Allowed(o, s, step)
    ensures Isolated(Do(o, s, step))
  {
    match step
    case DoAdd(name, data, clock, push) =>
      AddWrites(o, s, name, data, clock, push);
      WritingKeepsIsolated(s, Do(o, s, step), name);
    case DoMerge(name, list, clock) =>
      if list != [] {
        MergeWrites(o, s, name, list, clock);
        WritingKeepsIsolated(s, Do(o, s, step), name);
      }
    case DoDel(name) => DelKeepsIsolated(o, s, name);
    case DoGc(clock) => NothingToCollect(o.cfg, s.cache, clock);
    case DoRestart(_, _, _) => RestartGivesBack(o, s, step);
  }

  /** Without gc, over any run, restarts and crashes included, every id in the data store belongs
      to a live cached name. */
  lemma {:induction false} RunIsIsolated(o: Settings, steps: seq<Step>)
    requires o.cfg.gcInterval == 0 && o.cfg.lib.Contract()
    requires AllAllowed(o, FRESH, steps)
    ensures Invariant(o, Run(o, FRESH, steps)) && Isolated(Run(o, FRESH, steps))
  {
    FreshHasInvariant(o);
    RunKeepsInvariant(o, FRESH, steps);
    if steps != [] {
      var rest := steps[..|steps| - 1];
      AllowedPrefix(o, FRESH, steps);
      RunIsIsolated(o, rest);
      StepKeepsIsolated(o, Run(o, FRESH, rest), steps[|steps| - 1]);
    }
  }

  /** So a name that is not cached, new or deleted, begins with an empty series. */
  lemma NewNameIsEmpty(o: Settings, steps: seq<Step>, n: string, ts: int, from: int)
    requires o.cfg.gcInterval == 0 && o.cfg.lib.Contract()
    requires AllAllowed(o, FRESH, steps)
    requires n !in Run(o, FRESH, steps).cache.keys
    ensures var s := Run(o, FRESH, steps);
            Series(s.disk.points, Touched(o.cfg, s.cache, n, ts).key.id, from) == []
  {
    RunIsIsolated(o, steps);
    var s := Run(o, FRESH, steps);
    forall k: PointKey | k in s.disk.points ensures k.0 <= s.cache.counter {
      var m :| m in s.cache.keys && s.cache.keys[m].key.id == k.0;
      assert Holds(s, m, k.0);
    }
    SealedNewNameIsEmpty(o, s, n, ts, from);
  }

  /** No point has a time before 0. */
  ghost predicate TimesOk(d: Disk) {
    forall k: PointKey :: k in d.points ==> 0 <= k.1
  }

  /** With or without gc, over all runs. */
  lemma {:induction false} RunTimesOk(o: Settings, steps: seq<Step>)
    requires o.cfg.lib.Contract() && AllAllowed(o, FRESH, steps)
    ensures Invariant(o, Run(o, FRESH, steps)) && TimesOk(Run(o, FRESH, steps).disk)
  {
    FreshHasInvariant(o);
    RunKeepsInvariant(o, FRESH, steps);
    if steps != [] {
      var rest := steps[..|steps| - 1];
      AllowedPrefix(o, FRESH, steps);
      RunTimesOk(o, rest);
      StepKeepsTimes(o, Run(o, FRESH, rest), steps[|steps| - 1]);
    }
  }

  lemma StepKeepsTimes(o: Settings, s: System, step: Step)
    requires o.cfg.lib.Contract() && Invariant(o, s) && TimesOk(s.disk) && Allowed(o, s, step)
    ensures TimesOk(Do(o, s, step).disk)
  {
    match step
    case DoAdd(name, data, clock, push) => AddWrites(o, s, name, data, clock, push);
    case DoMerge(name, list, clock) =>
      if list != [] { MergeWrites(o, s, name, list, clock); }
    case DoDel(name) =>
    case DoGc(clock) =>
    case DoRestart(_, _, _) =>
      forall k: PointKey | k in Left(o, s, step).points ensures 0 <= k.1 { LeftPoint(o, s, step, k); }
  }

  /** And deleting a name, with or without gc, leaves none of its points behind, nor takes any
      other. */
  lemma DelLeavesNothing(o: Settings, steps: seq<Step>, n: string, from: int, other: nat)
    requires o.cfg.lib.Contract() && AllAllowed(o, FRESH, steps)
    requires n in Run(o, FRESH, steps).cache.keys
    ensures var s := Run(o, FRESH, steps);
            var id := s.cache.keys[n].key.id;
            && n !in Del(s, n).cache.keys && n !in Del(s, n).disk.keys
            && Series(Del(s, n).disk.points, id, from) == []
            && (other != id ==> Series(Del(s, n).disk.points, other, from) == Series(s.disk.points, other, from))
  {
    RunTimesOk(o, steps);
    var s := Run(o, FRESH, steps);
    var id := s.cache.keys[n].key.id;
    assert forall t :: t < 0 ==> (id, t) !in s.disk.points;
    DeleteEmptiesIff(s.disk.points, id);
    if other != id {
      WritesStayInSeries(o.cfg.lib, s.disk.points, id, ZERO, other, from);
    }
  }

  // ----- with gc, within one run

  /** The counter covers the ids of all points. */
  ghost predicate Sealed(s: System) {
    forall k: PointKey :: k in s.disk.points ==> k.0 <= s.cache.counter
  }

  lemma SealedNewNameIsEmpty(o: Settings, s: System, n: string, ts: int, from: int)
    requires Sealed(s) && n !in s.cache.keys
    ensures Series(s.disk.points, Touched(o.cfg, s.cache, n, ts).key.id, from) == []
  {
    NoSeries(s.disk.points, s.cache.counter + 1, from);
  }

  lemma WritingKeepsSealed(s: System, t: System, name: string)
    requires Sealed(s) && WritesFor(s, t, name)
    ensures Sealed(t)
  {
  }

  lemma StepKeepsSealed(o: Settings, s: System, step: Step)
    requires o.cfg.lib.Contract() && Invariant(o, s) && Sealed(s) && Allowed(o, s, step) && !step.DoRestart?
    ensures Sealed(Do(o, s, step))
  {
    match step
    case DoAdd(name, data, clock, push) =>
      AddWrites(o, s, name, data, clock, push);
      WritingKeepsSealed(s, Do(o, s, step), name);
    case DoMerge(name, list, clock) =>
      if list != [] {
        MergeWrites(o, s, name, list, clock);
        WritingKeepsSealed(s, Do(o, s, step), name);
      }
    case DoDel(name) =>
    case DoGc(clock) =>
  }

  /** Within one run this holds whatever gc does, so a new name still begins empty. */
  lemma {:induction false} RunIsSealed(o: Settings, s: System, steps: seq<Step>)
    requires o.cfg.lib.Contract() && Invariant(o, s) && Sealed(s) && AllAllowed(o, s, steps)
    requires forall i :: 0 <= i < |steps| ==> !steps[i].DoRestart?
    ensures Sealed(Run(o, s, steps))
  {
    if steps != [] {
      var rest, step := steps[..|steps| - 1], steps[|steps| - 1];
      AllowedPrefix(o, s, steps);
      assert forall i :: 0 <= i < |rest| ==> rest[i] == steps[i];
      RunIsSealed(o, s, rest);
      RunKeepsInvariant(o, s, rest);
      StepKeepsSealed(o, Run(o, s, rest), step);
    }
  }

  // ----- with gc, across restarts

  /** The id of the point is not 0 and not above all recorded ids; its time is not before 0. */
  ghost predicate CoveredPoint(d: Disk, k: PointKey) {
    0 < k.0 && 0 <= k.1 && exists n :: n in d.keys && k.0 <= d.keys[n].id
  }

  ghost predicate Covered(d: Disk) {
    forall k: PointKey :: k in d.points ==> CoveredPoint(d, k)
  }

  /** Some record carries this id. */
  ghost predicate Carried(d: Disk, id: nat) {
    exists n :: n in d.keys && d.keys[n].id == id
  }

  /** A record other than that of `name` has an id above this one. */
  ghost predicate Outranked(d: Disk, name: string, id: nat) {
    exists n :: n in d.keys && n != name && id < d.keys[n].id
  }

  /** Deleting the name is safe when every orphaned series (one whose id no record carries) is
      outranked by another record. */
  ghost predicate SafeToDelete(s: System, name: string) {
    name in s.cache.keys ==>
      forall k: PointKey :: k in s.disk.points && !Carried(s.disk, k.0) ==> Outranked(s.disk, name, k.0)
  }

  /** A deletion leaves points above all recorded ids exactly when it was not safe. */
  lemma DelKeepsCoveredIff(o: Settings, s: System, name: string)
    requires Invariant(o, s) && Covered(s.disk)
    ensures Covered(Del(s, name).disk) <==> SafeToDelete(s, name)
  {
    if name in s.cache.keys {
      var d, e, id := s.disk, Del(s, name).disk, s.cache.keys[name].key.id;
      assert CachedOk(o, s, name);
      if Covered(e) {
        forall k: PointKey | k in d.points && !Carried(d, k.0) ensures Outranked(d, name, k.0) {
          assert k in e.points;
          var n :| n in e.keys && k.0 <= e.keys[n].id;
          assert n in d.keys && d.keys[n].id != k.0;
        }
      }
      if SafeToDelete(s, name) {
        forall k: PointKey | k in e.points ensures CoveredPoint(e, k) {
          if Carried(d, k.0) {
            var n :| n in d.keys && d.keys[n].id == k.0;
            assert n in e.keys;
          } else {
            var n :| n in d.keys && n != name && k.0 < d.keys[n].id;
            assert n in e.keys;
          }
        }
      }
    }
  }

  lemma WritingKeepsCovered(o: Settings, s: System, t: System, name: string)
    requires Invariant(o, s) && Covered(s.disk) && WritesFor(s, t, name)
    ensures Covered(t.disk)
  {
    forall k: PointKey | k in t.disk.points ensures CoveredPoint(t.disk, k) {
      if k in s.disk.points {
        var n :| n in s.disk.keys && k.0 <= s.disk.keys[n].id;
        assert Holds(s, n, s.disk.keys[n].id);
        assert name in s.cache.keys ==> CachedOk(o, s, name);
        assert n in t.disk.keys && k.0 <= t.disk.keys[n].id;
      }
    }
  }

  lemma LiveIsCovered(o: Settings, s: System, k: PointKey)
    requires Invariant(o, s) && 0 <= k.1 && Live(s, k.0)
    ensures CoveredPoint(s.disk, k)
  {
    var n :| n in s.cache.keys && s.cache.keys[n].key.id == k.0;
    assert Holds(s, n, k.0) && CachedOk(o, s, n);
    assert n in s.disk.keys && k.0 <= s.disk.keys[n].id;
  }

  lemma RestartKeepsCovered(o: Settings, s: System, step: Step)
    requires Invariant(o, s) && Covered(s.disk) && step.DoRestart? && Allowed(o, s, step)
    ensures Covered(Left(o, s, step))
  {
    LeftKeys(o, s, step);
    forall k: PointKey | k in Left(o, s, step).points ensures CoveredPoint(s.disk, k) {
      LeftPoint(o, s, step, k);
      if k !in s.disk.points {
        LiveIsCovered(o, s, k);
      }
    }
  }

  lemma StepKeepsCovered(o: Settings, s: System, step: Step)
    requires o.cfg.lib.Contract() && Invariant(o, s) && Covered(s.disk) && Allowed(o, s, step)
    requires step.DoDel? ==> SafeToDelete(s, step.name)
    ensures Covered(Do(o, s, step).disk)
  {
    match step
    case DoAdd(name, data, clock, push) =>
      AddWrites(o, s, name, data, clock, push);
      WritingKeepsCovered(o, s, Do(o, s, step), name);
    case DoMerge(name, list, clock) =>
      if list != [] {
        MergeWrites(o, s, name, list, clock);
        WritingKeepsCovered(o, s, Do(o, s, step), name);
      }
    case DoDel(name) => DelKeepsCoveredIff(o, s, name);
    case DoGc(clock) =>
    case DoRestart(_, _, _) => RestartKeepsCovered(o, s, step);
  }

  /** With or without gc, over any run whose deletions are safe, restarts and crashes included,
      every point has an id no larger than some recorded id. */
  lemma {:induction false} RunIsCovered(o: Settings, steps: seq<Step>)
    requires o.cfg.lib.Contract() && AllAllowed(o, FRESH, steps)
    requires forall i :: 0 <= i < |steps| && steps[i].DoDel? ==> SafeToDelete(Run(o, FRESH, steps[..i]), steps[i].name)
    ensures Invariant(o, Run(o, FRESH, steps)) && Covered(Run(o, FRESH, steps).disk)
  {
    FreshHasInvariant(o);
    RunKeepsInvariant(o, FRESH, steps);
    if steps != [] {
      var rest := steps[..|steps| - 1];
      AllowedPrefix(o, FRESH, steps);
      forall i | 0 <= i < |rest| && rest[i].DoDel? ensures SafeToDelete(Run(o, FRESH, rest[..i]), rest[i].name) {
        assert rest[..i] == steps[..i] && rest[i] == steps[i];
      }
      RunIsCovered(o, rest);
      StepKeepsCovered(o, Run(o, FRESH, rest), steps[|steps| - 1]);
    }
  }

  /** So with gc too a name that is not cached begins with an empty series, in particular in
      every run without deletions. */
  lemma NewNameIsEmptyWithGc(o: Settings, steps: seq<Step>, n: string, ts: int, from: int)
    requires o.cfg.lib.Contract() && AllAllowed(o, FRESH, steps)
    requires forall i :: 0 <= i < |steps| && steps[i].DoDel? ==> SafeToDelete(Run(o, FRESH, steps[..i]), steps[i].name)
    requires n !in Run(o, FRESH, steps).cache.keys
    ensures var s := Run(o, FRESH, steps);
            Series(s.disk.points, Touched(o.cfg, s.cache, n, ts).key.id, from) == []
  {
    RunIsCovered(o, steps);
    var s := Run(o, FRESH, steps);
    CoveredIsSealed(o, s);
    SealedNewNameIsEmpty(o, s, n, ts, from);
  }

  lemma CoveredIsSealed(o: Settings, s: System)
    requires Invariant(o, s) && Covered(s.disk)
    ensures Sealed(s)
  {
    forall k: PointKey | k in s.disk.points ensures k.0 <= s.cache.counter {
      var n :| n in s.disk.keys && k.0 <= s.disk.keys[n].id;
      assert Holds(s, n, s.disk.keys[n].id);
    }
  }

  /** Without gc there are no orphaned series, so every deletion is safe. */
  lemma AlwaysSafeWithoutGc(o: Settings, steps: seq<Step>, name: string)
    requires o.cfg.gcInterval == 0 && o.cfg.lib.Contract() && AllAllowed(o, FRESH, steps)
    ensures SafeToDelete(Run(o, FRESH, steps), name)
  {
    RunIsIsolated(o, steps);
    var s := Run(o, FRESH, steps);
    forall k: PointKey | k in s.disk.points ensures Carried(s.disk, k.0) {
      var n :| n in s.cache.keys && s.cache.keys[n].key.id == k.0;
      assert CachedOk(o, s, n);
      assert n in s.disk.keys && s.disk.keys[n].id == k.0;
    }
  }

  /** A restart after a deletion, clean or not, finds the data store sealed exactly when the
      deletion was safe. */
  lemma DelThenRestartSealedIff(o: Settings, s: System, name: string, step: Step)
    requires o.cfg.lib.Contract() && Invariant(o, s) && Covered(s.disk)
    requires step.DoRestart? && Allowed(o, Del(s, name), step)
    ensures Sealed(Do(o, Del(s, name), step)) <==> SafeToDelete(s, name)
  {
    var e := Del(s, name);
    DelKeepsCoveredIff(o, s, name);
    RemovalKeepsInvariant(o, s, name, 0);
    RestartKeepsInvariant(o, e, step);
    if SafeToDelete(s, name) {
      RestartKeepsCovered(o, e, step);
      CoveredIsSealed(o, Do(o, e, step));
    } else {
      var k: PointKey :| k in s.disk.points && !Carried(s.disk, k.0) && !Outranked(s.disk, name, k.0);
      assert CachedOk(o, s, name);
      LeftKeepsPoints(o, e, step, k);
      LeftKeys(o, e, step);
      LoadKeys(o, Left(o, e, step));
    }
  }

  lemma {:induction false} StoreReleasedKeepsPoints(c: Cache, d: Disk, released: seq<StoredInfo>, k: PointKey)
    requires forall i :: 0 <= i < |released| ==> released[i].record.name in c.keys
    requires k in d.points
    ensures k in StoreReleased(c, d, released).points
  {
    if released != [] {
      var rest, r := released[..|released| - 1], released[|released| - 1];
      StoreReleasedKeepsPoints(c, d, rest, k);
      SetAllAt(StoreReleased(c, d, rest).points, c.keys[r.record.name].key.id, r.points, k);
    }
  }

  lemma LeftKeepsPoints(o: Settings, s: System, step: Step, k: PointKey)
    requires step.DoRestart? && k in s.disk.points
    ensures k in Left(o, s, step).points
  {
    if step.clean {
      StoreReleasedKeepsPoints(s.cache, s.disk, Released(o.cfg, s.cache, step.pop), k);
    }
  }

  // ----- when the data store is not sealed

  /** Adds one point to each of the names, in turn. */
  function Introduce(names: seq<string>, d: Info): (steps: seq<Step>)
    ensures |steps| == |names| && forall i :: 0 <= i < |steps| ==> steps[i] == DoMerge(names[i], [d], 0)
  {
    seq(|names|, i requires 0 <= i < |names| => DoMerge(names[i], [d], 0))
  }

  /** Merging one point into a new name. */
  lemma MergeNew(o: Settings, s: System, name: string, d: Info, clock: int, k: PointKey)
    requires name !in s.cache.keys
    ensures var t := MergeTo(o, s, name, [d], clock);
            && t.cache.counter == s.cache.counter + 1
            && t.cache.keys.Keys == s.cache.keys.Keys + {name} && t.disk.keys.Keys == s.disk.keys.Keys + {name}
            && t.cache.keys[name].key.id == t.cache.counter
            && t.cache.times == UpdateTime(o.cfg, s.cache.times, name, clock)
            && (k in s.disk.points || k == (t.cache.counter, o.cfg.lib.align(d.ts)) ==> k in t.disk.points)
  {
    var up := Coalesce(o.cfg.lib, Aligned(o.cfg.lib, [d]));
    assert Coalesce(o.cfg.lib, []) == [] && up == Aligned(o.cfg.lib, [d]);
    assert k.1 == o.cfg.lib.align(d.ts) ==> HasSlot(up, k.1) by { assert up[0].ts == o.cfg.lib.align(d.ts); }
    SetAllAt(s.disk.points, s.cache.counter + 1, up, k);
  }

  lemma RunIntroduce(o: Settings, s: System, names: seq<string>, d: Info)
    requires names != []
    ensures Run(o, s, Introduce(names, d))
            == MergeTo(o, Run(o, s, Introduce(names[..|names| - 1], d)), names[|names| - 1], [d], 0)
  {
    assert Introduce(names, d)[..|names| - 1] == Introduce(names[..|names| - 1], d);
  }

  /** New names are given the next ids, and no point goes. */
  lemma {:induction false} IntroduceCounts(o: Settings, s: System, names: seq<string>, d: Info, k: PointKey)
    requires 0 <= d.ts && k in s.disk.points
    requires forall i, j :: 0 <= i < j < |names| ==> names[i] != names[j]
    requires forall i :: 0 <= i < |names| ==> names[i] !in s.cache.keys
    ensures var t := Run(o, s, Introduce(names, d));
            && t.cache.counter == s.cache.counter + |names|
            && (forall n :: n in t.cache.keys <==> n in s.cache.keys || n in names)
            && k in t.disk.points
  {
    if names != [] {
      var rest, last := names[..|names| - 1], names[|names| - 1];
      IntroduceCounts(o, s, rest, d, k);
      var t := Run(o, s, Introduce(rest, d));
      assert names == rest + [last] && last !in rest;
      MergeNew(o, t, last, d, 0, k);
      RunIntroduce(o, s, names, d);
    }
  }

  /** A point with an id above the counter is met: when as many new names are added as the id is
      above the counter, the last of them begins with that point in its series. */
  lemma UnsealedIsMet(o: Settings, s: System, names: seq<string>, d: Info, k: PointKey)
    requires 0 <= d.ts && k in s.disk.points && k.0 == s.cache.counter + |names| && names != []
    requires forall i, j :: 0 <= i < j < |names| ==> names[i] != names[j]
    requires forall i :: 0 <= i < |names| ==> names[i] !in s.cache.keys
    ensures var before, last := Introduce(names[..|names| - 1], d), names[|names| - 1];
            var t := Run(o, s, before);
            && AllAllowed(o, s, before) && last !in t.cache.keys
            && Series(t.disk.points, Touched(o.cfg, t.cache, last, d.ts).key.id, k.1) != []
  {
    var rest := names[..|names| - 1];
    IntroduceCounts(o, s, rest, d, k);
    var t := Run(o, s, Introduce(rest, d));
    IntroduceAllowed(o, s, rest, d);
    SeriesHas(t.disk.points, k, k.1);
  }

  lemma IntroduceAllowed(o: Settings, s: System, names: seq<string>, d: Info)
    requires 0 <= d.ts
    ensures AllAllowed(o, s, Introduce(names, d))
  {
    var steps := Introduce(names, d);
    forall i | 0 <= i < |steps| ensures Allowed(o, Run(o, s, steps[..i]), steps[i]) {
      AllowedAnywhere(o, Run(o, s, steps[..i]), steps[i]);
    }
  }

  lemma SeriesHas(m: Points, k: PointKey, from: int)
    requires k in m && from <= k.1
    ensures Series(m, k.0, from) != []
  {
    assert k in SeriesKeys(m, k.0, from);
  }

  lemma AllowedAnywhere(o: Settings, s: System, step: Step)
    requires !step.DoAdd?
    requires step.DoMerge? ==> NotBefore0(step.list)
    requires step.DoRestart? ==> forall n :: step.pop(n) == None
    ensures Allowed(o, s, step)
  {
  }

  /** An unsafe deletion: a name is collected, comes back under a new id and is deleted; after a
      restart, even a clean one, the next new name is given the first id and sees the old point. */
  lemma UnsafeDelLeaks() returns (o: Settings, steps: seq<Step>)
    ensures o.cfg.lib.Contract() && AllAllowed(o, FRESH, steps)
    ensures |steps| == 5 && steps[3] == DoDel("a") && steps[4].DoRestart? && steps[4].clean
    ensures "b" !in Run(o, FRESH, steps).cache.keys
    ensures var s := Run(o, FRESH, steps);
            Series(s.disk.points, Touched(o.cfg, s.cache, "b", 2).key.id, 0) != []
  {
    o := Settings(Config(PLAIN, false, 10, 1, 1), false);
    PlainKeepsContract();
    steps := LeakingRun(ZERO.(ts := 1, count := 1), n => None);
    LeakingRunLeaks(o, ZERO.(ts := 1, count := 1), n => None);
  }

  function LeakingRun(p: Info, pop: string -> Option<Info>): seq<Step> {
    [DoMerge("a", [p], 1), DoGc(100), DoMerge("a", [p], 100), DoDel("a"), DoRestart(true, pop, 100)]
  }

  lemma LeakingRunLeaks(o: Settings, p: Info, pop: string -> Option<Info>)
    requires o.cfg.gcInterval == 1 && o.cfg.ttl == 10 && p.ts == 1 && o.cfg.lib.align(1) == 1
    requires forall n :: pop(n) == None
    ensures AllAllowed(o, FRESH, LeakingRun(p, pop))
    ensures var s := Run(o, FRESH, LeakingRun(p, pop));
            && "b" !in s.cache.keys
            && Series(s.disk.points, Touched(o.cfg, s.cache, "b", 2).key.id, 0) != []
  {
    var steps := LeakingRun(p, pop);
    forall i | 0 <= i < |steps| ensures Allowed(o, Run(o, FRESH, steps[..i]), steps[i]) {
      AllowedAnywhere(o, Run(o, FRESH, steps[..i]), steps[i]);
    }
    FiveSteps(o, FRESH, steps);
    FiveStates(o, p, pop);
    SeriesHas(Run(o, FRESH, steps).disk.points, (1, 1), 0);
  }

  lemma FiveStates(o: Settings, p: Info, pop: string -> Option<Info>)
    requires o.cfg.gcInterval == 1 && o.cfg.ttl == 10 && p.ts == 1 && o.cfg.lib.align(1) == 1
    ensures var s := Do(o, Del(MergeTo(o, Gc(o, MergeTo(o, FRESH, "a", [p], 1), 100), "a", [p], 100), "a"), DoRestart(true, pop, 100));
            s.cache.keys == map[] && s.cache.counter == 0 && (1, 1) in s.disk.points
  {
    var s1 := MergeTo(o, FRESH, "a", [p], 1);
    MergeNew(o, FRESH, "a", p, 1, (1, 1));
    var s2 := Gc(o, s1, 100);
    assert s2.cache.keys == map[];
    MergeNew(o, s2, "a", p, 100, (1, 1));
    LastNameGoes(o, MergeTo(o, s2, "a", [p], 100), "a", (1, 1), DoRestart(true, pop, 100));
  }

  /** Deleting the only name and restarting forgets every id. */
  lemma LastNameGoes(o: Settings, s: System, name: string, k: PointKey, step: Step)
    requires s.cache.keys.Keys == s.disk.keys.Keys == {name} && k in s.disk.points
    requires s.cache.keys[name].key.id != k.0 && step.DoRestart? && step.clean
    ensures var t := Do(o, Del(s, name), step); t.cache.keys == map[] && t.cache.counter == 0 && k in t.disk.points
  {
    var e := Del(s, name);
    forall n ensures n !in Left(o, e, step).keys { CloseKey(o, e, step.pop, n); }
    LeftKeepsPoints(o, e, step, k);
    LoadKeys(o, Left(o, e, step));
  }

  lemma FiveSteps(o: Settings, s: System, steps: seq<Step>)
    requires |steps| == 5
    ensures Run(o, s, steps) == Do(o, Do(o, Do(o, Do(o, Do(o, s, steps[0]), steps[1]), steps[2]), steps[3]), steps[4])
  {
    assert steps[..4][..3] == steps[..3] && steps[..3][..2] == steps[..2] && steps[..2][..1] == steps[..1] && steps[..1][..0] == [];
    assert Run(o, s, steps[..1]) == Do(o, s, steps[0]);
    assert Run(o, s, steps[..2]) == Do(o, Run(o, s, steps[..1]), steps[1]);
    assert Run(o, s, steps[..3]) == Do(o, Run(o, s, steps[..2]), steps[2]);
    assert Run(o, s, steps[..4]) == Do(o, Run(o, s, steps[..3]), steps[3]);
  }
}
