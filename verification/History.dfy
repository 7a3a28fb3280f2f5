/** The key info of a name is what its history says, over whole runs and restarts. */
module History {
  import opened Wrappers
  import opened Wrtstat
  import opened StoredKeys
  import opened KeyAggregators
  import opened KeyStorages
  import opened CacheSpec
  import opened StorageSpec
  import opened StorageRuns

  /** The points behind every record. */
  type Past = map<string, seq<Info>>

  /** A name receives points; one that is not cached begins anew. */
  function Received(s: System, p: Past, n: string, xs: seq<Info>): Past {
    p[n := (if n in s.cache.keys && n in p then p[n] else []) + xs]
  }

  /** How a step changes the past: only deleting forgets; collecting and restarting, clean or
      not, change nothing. */
  function Remember(o: Settings, s: System, p: Past, step: Step): Past {
    match step
    case DoAdd(n, data, clock, push) =>
      if IsLate(Touched(o.cfg, s.cache, n, data.info.ts), data) then p
      else Received(s, p, n, Emissions(o.cfg, push(Prepared(data))))
    case DoMerge(n, list, clock) => if list == [] then p else Received(s, p, n, Aligned(o.cfg.lib, list))
    case DoDel(n) => if n in s.cache.keys then p - {n} else p
    case DoGc(clock) => p
    case DoRestart(clean, pop, clock) => p
  }

  function PastOf(o: Settings, steps: seq<Step>): Past {
    if steps == [] then map[]
    else
      var rest := steps[..|steps| - 1];
      Remember(o, Run(o, FRESH, rest), PastOf(o, rest), steps[|steps| - 1])
  }

  ghost predicate RecordsTold(keys: map<string, StoredKey>, p: Past) {
    && p.Keys == keys.Keys
    && forall n :: n in p ==> Same(keys[n].values, Observe(PRISTINE, p[n]))
  }

  lemma ReceivingIsTold(o: Settings, s: System, t: System, p: Past, name: string, ts: int, xs: seq<Info>, current: int)
    requires Invariant(o, s) && RecordsTold(s.disk.keys, p)
    requires Receives(o, s, t, name, ts, xs, current, true)
    ensures RecordsTold(t.disk.keys, Received(s, p, name, xs))
  {
    var before := if name in s.cache.keys then p[name] else [];
    assert name in s.cache.keys ==> CachedOk(o, s, name);
    assert Same(Touched(o.cfg, s.cache, name, ts).key.values, Observe(PRISTINE, before));
    ObserveConcat(PRISTINE, before, xs);
    assert Same(t.disk.keys[name].values, Observe(PRISTINE, before + xs));
  }

  lemma StepIsTold(o: Settings, s: System, p: Past, step: Step)
    requires o.cfg.lib.Contract() && Invariant(o, s) && RecordsTold(s.disk.keys, p)
    ensures RecordsTold(Do(o, s, step).disk.keys, Remember(o, s, p, step))
  {
    match step
    case DoAdd(name, data, clock, push) =>
      var got := Got(o, s, name, data, push);
      AddReceives(o, s, name, data, clock, push);
      if !IsLate(Touched(o.cfg, s.cache, name, data.info.ts), data) {
        ReceivingIsTold(o, s, Do(o, s, step), p, name, data.info.ts, got.0, got.1);
      }
    case DoMerge(name, list, clock) =>
      if list != [] {
        MergeReceives(o, s, name, list, clock);
        ReceivingIsTold(o, s, Do(o, s, step), p, name, LastTime(list), Aligned(o.cfg.lib, list),
                        Touched(o.cfg, s.cache, name, LastTime(list)).current);
      }
    case DoDel(name) =>
    case DoGc(clock) =>
    case DoRestart(_, _, _) => LeftKeys(o, s, step);
  }

  /** In every run, restarts and crashes included, the key info of every record and of every
      cached name is what observing its past from a pristine start gives. */
  lemma {:induction false} RunIsTold(o: Settings, steps: seq<Step>)
    requires o.cfg.lib.Contract() && AllAllowed(o, FRESH, steps)
    ensures RecordsTold(Run(o, FRESH, steps).disk.keys, PastOf(o, steps))
    ensures var s := Run(o, FRESH, steps);
            forall n :: n in s.cache.keys ==> n in PastOf(o, steps)
                                              && Same(s.cache.keys[n].key.values, Observe(PRISTINE, PastOf(o, steps)[n]))
  {
    FreshHasInvariant(o);
    RunKeepsInvariant(o, FRESH, steps);
    if steps != [] {
      var rest := steps[..|steps| - 1];
      AllowedPrefix(o, FRESH, steps);
      RunIsTold(o, rest);
      RunKeepsInvariant(o, FRESH, rest);
      StepIsTold(o, Run(o, FRESH, rest), PastOf(o, rest), steps[|steps| - 1]);
    }
    var s := Run(o, FRESH, steps);
    forall n | n in s.cache.keys
      ensures n in PastOf(o, steps) && Same(s.cache.keys[n].key.values, Observe(PRISTINE, PastOf(o, steps)[n]))
    {
      assert CachedOk(o, s, n);
    }
  }

  /** So every field of every cached name is the first argmax of its past. */
  lemma KeyInfoIsFirstMax(o: Settings, steps: seq<Step>, n: string, f: Field)
    requires o.cfg.lib.Contract() && AllAllowed(o, FRESH, steps) && n in Run(o, FRESH, steps).cache.keys
    ensures n in PastOf(o, steps)
    ensures IsFirstMax(Pair(Run(o, FRESH, steps).cache.keys[n].key.values, f), Contributions(PastOf(o, steps)[n], f))
  {
    RunIsTold(o, steps);
    ObserveIsFirstMax(PastOf(o, steps)[n], f);
  }
}
