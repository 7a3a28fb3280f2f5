/** How long names live: the gc window, over whole runs of the storage. */
module GcWindow {
  import opened Wrappers
  import opened Wrtstat
  import opened KeyAggregators
  import opened CacheSpec
  import opened StorageSpec
  import opened StorageRuns

  /** An add to `n`, or a merge of some points into it. */
  ghost predicate Touches(step: Step, n: string) {
    (step.DoAdd? && step.name == n) || (step.DoMerge? && step.name == n && step.list != [])
  }

  ghost predicate NoRestart(steps: seq<Step>) {
    forall i :: 0 <= i < |steps| ==> !steps[i].DoRestart?
  }

  /** What a step that is not a restart does to the recorded times. */
  lemma TimesAfter(o: Settings, s: System, step: Step)
    requires !step.DoRestart?
    ensures var c, d := s.cache, Do(o, s, step).cache;
            && (forall n :: Touches(step, n) ==> d.times == UpdateTime(o.cfg, c.times, n, step.clock)
                                                 && d.keys.Keys == c.keys.Keys + {n})
            && (step.DoDel? && step.name in c.keys ==> d.times == c.times - {step.name} && d.keys.Keys == c.keys.Keys - {step.name})
            && (step.DoDel? && step.name !in c.keys ==> d == c)
            && (step.DoMerge? && step.list == [] ==> d == c)
            && (step.DoGc? ==> d.times == c.times - Removed(o.cfg, c, step.clock) && d.keys == c.keys - Removed(o.cfg, c, step.clock))
  {
  }

  /** The names with a recorded time are the cached names when gc is on, and none when it is
      off, whatever the steps: restarts, clean or not, included. */
  lemma {:induction false} RunKeepsIndexes(o: Settings, s: System, steps: seq<Step>)
    requires IndexesAgree(o.cfg, s.cache)
    ensures IndexesAgree(o.cfg, Run(o, s, steps).cache)
  {
    if steps != [] {
      var rest, step := steps[..|steps| - 1], steps[|steps| - 1];
      RunKeepsIndexes(o, s, rest);
      var t := Run(o, s, rest);
      if step.DoRestart? {
        LoadKeys(o, Left(o, t, step));
      } else {
        TimesAfter(o, t, step);
        assert step.DoAdd? ==> Touches(step, step.name);
        assert step.DoMerge? && step.list != [] ==> Touches(step, step.name);
      }
    }
  }

  /** While a name lives its recorded time does not go back. */
  lemma RecordedTimeGrows(o: Settings, s: System, step: Step, n: string)
    requires o.cfg.gcInterval >= 0 && !step.DoRestart?
    requires n in s.cache.times && n in Do(o, s, step).cache.times
    ensures s.cache.times[n] <= Do(o, s, step).cache.times[n]
  {
    TimesAfter(o, s, step);
    assert step.DoAdd? ==> Touches(step, step.name);
    assert step.DoMerge? && step.list != [] ==> Touches(step, step.name);
  }

  /** `step` neither deletes `n` nor collects at a time that reaches `bound`. */
  ghost predicate Spares(cfg: Config, step: Step, n: string, bound: int) {
    && !step.DoRestart?
    && (step.DoDel? ==> step.name != n)
    && (step.DoGc? ==> step.clock - cfg.ttl <= bound)
  }

  lemma SparedStep(o: Settings, s: System, step: Step, n: string, bound: int)
    requires o.cfg.gcInterval > 0 && n in s.cache.times && n in s.cache.keys && bound <= s.cache.times[n]
    requires Spares(o.cfg, step, n, bound)
    ensures n in Do(o, s, step).cache.keys && n in Do(o, s, step).cache.times
    ensures s.cache.times[n] <= Do(o, s, step).cache.times[n]
  {
    TimesAfter(o, s, step);
    assert step.DoAdd? ==> Touches(step, step.name);
    assert step.DoMerge? && step.list != [] ==> Touches(step, step.name);
  }

  /** A name touched at `t` outlives every collection at T with T - TTL <= t - gc_interval + 1. */
  lemma {:induction false} TouchedNameSurvives(o: Settings, s: System, n: string, touch: Step, steps: seq<Step>)
    requires o.cfg.gcInterval > 0 && IndexesAgree(o.cfg, s.cache) && Touches(touch, n)
    requires forall i :: 0 <= i < |steps| ==> Spares(o.cfg, steps[i], n, touch.clock - o.cfg.gcInterval + 1)
    ensures var t := Run(o, Do(o, s, touch), steps);
            n in t.cache.keys && n in t.cache.times && t.cache.times[n] > touch.clock - o.cfg.gcInterval
  {
    if steps == [] {
      TimesAfter(o, s, touch);
    } else {
      var rest, step := steps[..|steps| - 1], steps[|steps| - 1];
      TouchedNameSurvives(o, s, n, touch, rest);
      SparedStep(o, Run(o, Do(o, s, touch), rest), step, n, touch.clock - o.cfg.gcInterval + 1);
    }
  }

  /** The bound is the best possible: one tick later the name can be lost. */
  lemma SurvivalIsTight(o: Settings, n: string, d: Info)
    requires o.cfg.gcInterval > 0
    ensures var t := o.cfg.gcInterval - 1;
            var s := MergeTo(o, MergeTo(o, FRESH, n, [d], 0), n, [d], t);
            n in s.cache.keys && n !in Gc(o, s, o.cfg.ttl + t - o.cfg.gcInterval + 2).cache.keys
  {
  }

  /** The clock of a step, if it reads it. */
  function ClockOf(step: Step): Option<int> {
    match step
    case DoAdd(_, _, clock, _) => Some(clock)
    case DoMerge(_, _, clock) => Some(clock)
    case DoGc(clock) => Some(clock)
    case _ => None
  }

  ghost predicate ClockNondecreasing(steps: seq<Step>) {
    forall i, j :: 0 <= i < j < |steps| && ClockOf(steps[i]).Some? && ClockOf(steps[j]).Some? ==>
                     ClockOf(steps[i]).value <= ClockOf(steps[j]).value
  }

  /** A name created in a run is recorded at the clock of one of the steps that touched it. */
  lemma {:induction false} RecordedByTouch(o: Settings, s: System, n: string, steps: seq<Step>)
    requires n !in s.cache.times && NoRestart(steps)
    ensures n in Run(o, s, steps).cache.times ==>
              exists i :: 0 <= i < |steps| && Touches(steps[i], n) && Run(o, s, steps).cache.times[n] == steps[i].clock
  {
    if steps != [] {
      var rest, step := steps[..|steps| - 1], steps[|steps| - 1];
      RecordedByTouch(o, s, n, rest);
      var c, d := Run(o, s, rest).cache, Run(o, s, steps).cache;
      TimesAfter(o, Run(o, s, rest), step);
      assert step.DoAdd? ==> Touches(step, step.name);
      assert step.DoMerge? && step.list != [] ==> Touches(step, step.name);
      if n in d.times {
        if n in c.times && c.times[n] == d.times[n] {
          var i :| 0 <= i < |rest| && Touches(rest[i], n) && c.times[n] == rest[i].clock;
          assert Touches(steps[i], n);
        } else {
          assert Touches(step, n) && d.times[n] == step.clock;
        }
      }
    }
  }

  /** With a clock that does not go back, a collection at T removes every name created in the
      run whose touches all lie before T - TTL. */
  lemma OldNameIsCollected(o: Settings, s: System, n: string, steps: seq<Step>, last: nat, clock: int)
    requires o.cfg.gcInterval > 0 && IndexesAgree(o.cfg, s.cache)
    requires n !in s.cache.keys && NoRestart(steps) && ClockNondecreasing(steps)
    requires last < |steps| && Touches(steps[last], n) && steps[last].clock < clock - o.cfg.ttl
    requires forall j :: last < j < |steps| ==> !Touches(steps[j], n)
    ensures n !in Gc(o, Run(o, s, steps), clock).cache.keys
  {
    RunKeepsIndexes(o, s, steps);
    RecordedByTouch(o, s, n, steps);
    var c := Run(o, s, steps).cache;
    if n in c.times {
      var i :| 0 <= i < |steps| && Touches(steps[i], n) && c.times[n] == steps[i].clock;
      assert i <= last;
      assert i < last ==> ClockOf(steps[i]).value <= ClockOf(steps[last]).value;
    }
  }
}
