/** Late points: they are added to what is stored, and nothing written later replaces them. */
module LatePoints {
  import opened Wrappers
  import opened Wrtstat
  import opened KeyAggregators
  import opened Coalescing
  import opened DataStore
  import opened CacheSpec
  import opened StorageSpec
  import opened StorageRuns
  import opened Isolation

  /** A write to one series: `set` replaces the point of a slot, `inc` adds to it. */
  datatype Write = SetAt(d: Info) | IncAt(d: Info)

  function Writes(late: bool, ds: seq<Info>): (w: seq<Write>)
    ensures |w| == |ds|
    ensures forall i :: 0 <= i < |ds| ==> w[i] == if late then IncAt(ds[i]) else SetAt(ds[i])
  {
    seq(|ds|, i requires 0 <= i < |ds| => if late then IncAt(ds[i]) else SetAt(ds[i]))
  }

  /** What a step writes to the series of `n`, if it is an add to `n`. */
  function WritesOf(o: Settings, s: System, step: Step, n: string): seq<Write> {
    if step.DoAdd? && step.name == n then
      var a := Touched(o.cfg, s.cache, n, step.data.info.ts);
      Writes(IsLate(a, step.data), AddData(o.cfg, a, step.data, step.push))
    else []
  }

  /** All the writes of a run to the series of `n`, in order. */
  function Log(o: Settings, s: System, steps: seq<Step>, n: string): seq<Write> {
    if steps == [] then []
    else
      var rest := steps[..|steps| - 1];
      Log(o, s, rest, n) + WritesOf(o, Run(o, s, rest), steps[|steps| - 1], n)
  }

  /** Steps that neither restart nor merge into, delete or collect `n`; whatever happens to
      other names is free. */
  ghost predicate OnlyAddsTo(o: Settings, s: System, step: Step, n: string) {
    && !step.DoRestart?
    && (step.DoMerge? || step.DoDel? ==> step.name != n)
    && (step.DoGc? ==> n !in Removed(o.cfg, s.cache, step.clock))
  }

  ghost predicate RunOnlyAddsTo(o: Settings, s: System, steps: seq<Step>, n: string) {
    forall i :: 0 <= i < |steps| ==> OnlyAddsTo(o, Run(o, s, steps[..i]), steps[i], n)
  }

  lemma OnlyAddsPrefix(o: Settings, s: System, steps: seq<Step>, n: string)
    requires RunOnlyAddsTo(o, s, steps, n) && steps != []
    ensures RunOnlyAddsTo(o, s, steps[..|steps| - 1], n)
    ensures OnlyAddsTo(o, Run(o, s, steps[..|steps| - 1]), steps[|steps| - 1], n)
  {
    var rest := steps[..|steps| - 1];
    forall i | 0 <= i < |rest| ensures OnlyAddsTo(o, Run(o, s, rest[..i]), rest[i], n) {
      assert rest[..i] == steps[..i] && rest[i] == steps[i];
    }
  }

  /** No `set` to a slot comes after an `inc` to it. */
  ghost predicate SetsBeforeIncs(log: seq<Write>) {
    forall i, j :: 0 <= i < j < |log| && log[i].IncAt? && log[j].SetAt? ==> log[i].d.ts != log[j].d.ts
  }

  /** The slots that were incremented are all before `current`. */
  ghost predicate IncsBefore(log: seq<Write>, current: int) {
    forall i :: 0 <= i < |log| && log[i].IncAt? ==> log[i].d.ts < current
  }

  /** One add to `n`: a late point goes to a slot before the separator's time, and everything
      else to slots from that time on. */
  lemma AddWritesApart(o: Settings, s: System, step: Step, n: string)
    requires o.cfg.lib.Contract() && Allowed(o, s, step) && step.DoAdd? && step.name == n
    ensures var a := Touched(o.cfg, s.cache, n, step.data.info.ts);
            var w := WritesOf(o, s, step, n);
            && (forall i :: 0 <= i < |w| ==> if w[i].IncAt? then w[i].d.ts < a.current else a.current <= w[i].d.ts)
            && ((forall i :: 0 <= i < |w| ==> w[i].IncAt?) || (forall i :: 0 <= i < |w| ==> w[i].SetAt?))
            && n in Do(o, s, step).cache.keys && a.current <= Do(o, s, step).cache.keys[n].current
  {
    var a := Touched(o.cfg, s.cache, n, step.data.info.ts);
    assert IsLate(a, step.data) ==> o.cfg.lib.align(step.data.info.ts) <= step.data.info.ts;
  }

  /** A step that is not an add to `n` leaves its aggregator alone. */
  lemma OthersLeaveAggregator(o: Settings, s: System, step: Step, n: string)
    requires OnlyAddsTo(o, s, step, n) && !(step.DoAdd? && step.name == n)
    ensures n in Do(o, s, step).cache.keys <==> n in s.cache.keys
    ensures n in s.cache.keys ==> Same(Do(o, s, step).cache.keys[n], s.cache.keys[n])
  {
  }

  lemma AppendKeepsOrder(log: seq<Write>, w: seq<Write>, current: int, after: int)
    requires SetsBeforeIncs(log) && IncsBefore(log, current) && current <= after
    requires forall i :: 0 <= i < |w| ==> if w[i].IncAt? then w[i].d.ts < current else current <= w[i].d.ts
    requires (forall i :: 0 <= i < |w| ==> w[i].IncAt?) || (forall i :: 0 <= i < |w| ==> w[i].SetAt?)
    ensures SetsBeforeIncs(log + w) && IncsBefore(log + w, after)
  {
  }

  /** Late points are never overwritten: in any run without restarts in which `n` is only added
      to, every `set` to a slot of its series comes before every `inc` to that slot. */
  lemma {:induction false} LateNeverOverwritten(o: Settings, s: System, steps: seq<Step>, n: string)
    requires o.cfg.lib.Contract()
    requires AllAllowed(o, s, steps) && RunOnlyAddsTo(o, s, steps, n)
    ensures SetsBeforeIncs(Log(o, s, steps, n))
    ensures var t := Run(o, s, steps);
            if n in t.cache.keys then IncsBefore(Log(o, s, steps, n), t.cache.keys[n].current)
            else Log(o, s, steps, n) == [] && n !in s.cache.keys
  {
    if steps != [] {
      var rest, step := steps[..|steps| - 1], steps[|steps| - 1];
      AllowedPrefix(o, s, steps);
      OnlyAddsPrefix(o, s, steps, n);
      LateNeverOverwritten(o, s, rest, n);
      var t := Run(o, s, rest);
      if step.DoAdd? && step.name == n {
        AddWritesApart(o, t, step, n);
        AppendKeepsOrder(Log(o, s, rest, n), WritesOf(o, t, step, n), Touched(o.cfg, t.cache, n, step.data.info.ts).current,
                         Do(o, t, step).cache.keys[n].current);
      } else {
        OthersLeaveAggregator(o, t, step, n);
      }
    }
  }

  // ----- what the log leaves in a slot

  /** The point of a slot after the writes of a log. */
  function Replay(lib: Library, base: Option<Info>, log: seq<Write>, slot: int): Option<Info> {
    if log == [] then base
    else
      var before, w := Replay(lib, base, log[..|log| - 1], slot), log[|log| - 1];
      if w.d.ts != slot then before
      else if w.SetAt? then Some(w.d)
      else Some(lib.plus(if before.Some? then before.value else ZERO, w.d))
  }

  /** The point a slot holds without the late points: the last one set to it, or what was there
      before. */
  function LastSet(base: Option<Info>, log: seq<Write>, slot: int): Option<Info> {
    if log == [] then base
    else if log[|log| - 1].SetAt? && log[|log| - 1].d.ts == slot then Some(log[|log| - 1].d)
    else LastSet(base, log[..|log| - 1], slot)
  }

  function CountOf(point: Option<Info>): int {
    if point.Some? then point.value.count else 0
  }

  function LateCount(log: seq<Write>, slot: int): int {
    if log == [] then 0
    else LateCount(log[..|log| - 1], slot)
         + if log[|log| - 1].IncAt? && log[|log| - 1].d.ts == slot then log[|log| - 1].d.count else 0
  }

  lemma {:induction false} NoIncNoLateCount(log: seq<Write>, slot: int)
    requires forall i :: 0 <= i < |log| && log[i].IncAt? ==> log[i].d.ts != slot
    ensures LateCount(log, slot) == 0
  {
    if log != [] { NoIncNoLateCount(log[..|log| - 1], slot); }
  }

  /** With the sets before the incs, a slot ends with the last set count plus all late counts. */
  lemma {:induction false} ReplayCount(lib: Library, base: Option<Info>, log: seq<Write>, slot: int)
    requires lib.Contract() && SetsBeforeIncs(log)
    ensures var r := Replay(lib, base, log, slot);
            CountOf(r) == CountOf(LastSet(base, log, slot)) + LateCount(log, slot)
  {
    if log != [] {
      var rest, w := log[..|log| - 1], log[|log| - 1];
      ReplayCount(lib, base, rest, slot);
      if w.SetAt? && w.d.ts == slot {
        forall i | 0 <= i < |rest| && rest[i].IncAt? ensures rest[i].d.ts != slot {
          assert log[i].d.ts != log[|rest|].d.ts;
        }
        NoIncNoLateCount(rest, slot);
      }
    }
  }

  lemma {:induction false} ReplayConcat(lib: Library, base: Option<Info>, a: seq<Write>, b: seq<Write>, slot: int)
    ensures Replay(lib, base, a + b, slot) == Replay(lib, Replay(lib, base, a, slot), b, slot)
  {
    if b == [] {
      assert a + b == a;
    } else {
      assert (a + b)[..|a + b| - 1] == a + b[..|b| - 1];
      ReplayConcat(lib, base, a, b[..|b| - 1], slot);
    }
  }

  function PointAt(m: Points, id: nat, slot: int): Option<Info> {
    if (id, slot) in m then Some(m[(id, slot)]) else None
  }

  /** A loop of `set` or of `inc` calls is a replay of its writes. */
  lemma {:induction false} LoopIsReplay(lib: Library, m: Points, id: nat, ds: seq<Info>, slot: int)
    ensures PointAt(SetAll(m, id, ds), id, slot) == Replay(lib, PointAt(m, id, slot), Writes(false, ds), slot)
    ensures PointAt(IncAll(lib, m, id, ds), id, slot) == Replay(lib, PointAt(m, id, slot), Writes(true, ds), slot)
  {
    if ds != [] {
      var rest := ds[..|ds| - 1];
      LoopIsReplay(lib, m, id, rest, slot);
      assert Writes(false, ds)[..|ds| - 1] == Writes(false, rest);
      assert Writes(true, ds)[..|ds| - 1] == Writes(true, rest);
    }
  }

  /** A step changes the series of `n` by its writes to it, and by nothing else. */
  lemma StepIsReplay(o: Settings, s: System, step: Step, n: string, slot: int)
    requires o.cfg.lib.Contract() && !o.disableMerge
    requires Invariant(o, s) && Sealed(s) && Allowed(o, s, step) && OnlyAddsTo(o, s, step, n)
    requires n in Do(o, s, step).cache.keys
    ensures var id := Do(o, s, step).cache.keys[n].key.id;
            && (n in s.cache.keys ==> id == s.cache.keys[n].key.id)
            && PointAt(Do(o, s, step).disk.points, id, slot) ==
               Replay(o.cfg.lib, if n in s.cache.keys then PointAt(s.disk.points, id, slot) else None, WritesOf(o, s, step, n), slot)
  {
    var t := Do(o, s, step);
    if step.DoAdd? && step.name == n {
      var a := Touched(o.cfg, s.cache, n, step.data.info.ts);
      LoopIsReplay(o.cfg.lib, s.disk.points, a.key.id, AddData(o.cfg, a, step.data, step.push), slot);
      assert n !in s.cache.keys ==> (a.key.id, slot) !in s.disk.points;
    } else {
      OthersLeaveAggregator(o, s, step, n);
      OthersLeavePoints(o, s, step, n, slot);
    }
  }

  lemma OthersLeavePoints(o: Settings, s: System, step: Step, n: string, slot: int)
    requires Invariant(o, s) && OnlyAddsTo(o, s, step, n) && !(step.DoAdd? && step.name == n)
    requires n in s.cache.keys
    ensures var id := s.cache.keys[n].key.id;
            PointAt(Do(o, s, step).disk.points, id, slot) == PointAt(s.disk.points, id, slot)
  {
    var id := s.cache.keys[n].key.id;
    assert Holds(s, n, id);
    match step
    case DoAdd(name, data, clock, push) =>
      var a := Touched(o.cfg, s.cache, name, data.info.ts);
      assert name in s.cache.keys ==> Holds(s, name, a.key.id);
      assert a.key.id != id;
      SetAllAt(s.disk.points, a.key.id, AddData(o.cfg, a, data, push), (id, slot));
      IncAllElsewhere(o.cfg.lib, s.disk.points, a.key.id, AddData(o.cfg, a, data, push), (id, slot));
    case DoMerge(name, list, clock) =>
      var a := Touched(o.cfg, s.cache, name, LastTime(list));
      assert name in s.cache.keys ==> Holds(s, name, a.key.id);
      assert a.key.id != id;
      SetAllAt(s.disk.points, a.key.id, Coalesce(o.cfg.lib, Aligned(o.cfg.lib, list)), (id, slot));
    case DoDel(name) =>
      assert name in s.cache.keys ==> Holds(s, name, s.cache.keys[name].key.id);
    case DoGc(clock) =>
  }

  /** The series of `n` at the end of the run is the replay of its log; a name created in the
      run begins with nothing. */
  lemma {:induction false} SeriesIsReplay(o: Settings, s: System, steps: seq<Step>, n: string, slot: int)
    requires o.cfg.lib.Contract() && !o.disableMerge
    requires Invariant(o, s) && Sealed(s) && AllAllowed(o, s, steps) && RunOnlyAddsTo(o, s, steps, n)
    requires n in Run(o, s, steps).cache.keys
    ensures var id := Run(o, s, steps).cache.keys[n].key.id;
            PointAt(Run(o, s, steps).disk.points, id, slot) ==
            Replay(o.cfg.lib, if n in s.cache.keys then PointAt(s.disk.points, id, slot) else None, Log(o, s, steps, n), slot)
    ensures n in s.cache.keys ==> Run(o, s, steps).cache.keys[n].key.id == s.cache.keys[n].key.id
  {
    if steps != [] {
      var rest, step := steps[..|steps| - 1], steps[|steps| - 1];
      AllowedPrefix(o, s, steps);
      OnlyAddsPrefix(o, s, steps, n);
      var t := Run(o, s, rest);
      RunKeepsInvariant(o, s, rest);
      NoRestarts(o, s, rest, n);
      RunIsSealed(o, s, rest);
      StepIsReplay(o, t, step, n, slot);
      LateNeverOverwritten(o, s, rest, n);
      if n in t.cache.keys {
        SeriesIsReplay(o, s, rest, n, slot);
        var id := t.cache.keys[n].key.id;
        ReplayConcat(o.cfg.lib, if n in s.cache.keys then PointAt(s.disk.points, id, slot) else None,
                     Log(o, s, rest, n), WritesOf(o, t, step, n), slot);
      } else {
        assert Log(o, s, steps, n) == WritesOf(o, t, step, n);
      }
    }
  }

  lemma NoRestarts(o: Settings, s: System, steps: seq<Step>, n: string)
    requires RunOnlyAddsTo(o, s, steps, n)
    ensures forall i :: 0 <= i < |steps| ==> !steps[i].DoRestart?
  {
    forall i | 0 <= i < |steps| ensures !steps[i].DoRestart? {
      assert OnlyAddsTo(o, Run(o, s, steps[..i]), steps[i], n);
    }
  }

  // ----- in terms of the steps

  /** The step adds a late point to `n`. */
  ghost predicate ArrivesLate(s: System, step: Step, n: string) {
    && step.DoAdd? && step.name == n && n in s.cache.keys
    && step.data.info.ts != 0 && step.data.info.ts < s.cache.keys[n].current
  }

  /** The counts of all late points of a slot, as they were added. */
  ghost function LateAdds(o: Settings, s: System, steps: seq<Step>, n: string, slot: int): int {
    if steps == [] then 0
    else
      var rest, step := steps[..|steps| - 1], steps[|steps| - 1];
      LateAdds(o, s, rest, n, slot)
      + if ArrivesLate(Run(o, s, rest), step, n) && o.cfg.lib.align(step.data.info.ts) == slot then step.data.info.count else 0
  }

  /** The last point that a push for `n` handed over for the slot, or what was there before. */
  ghost function LastHanded(o: Settings, s: System, base: Option<Info>, steps: seq<Step>, n: string, slot: int): Option<Info> {
    if steps == [] then base
    else
      var rest, step := steps[..|steps| - 1], steps[|steps| - 1];
      var before := LastHanded(o, s, base, rest, n, slot);
      if step.DoAdd? && step.name == n && !ArrivesLate(Run(o, s, rest), step, n) then
        var last := LastAt(Emissions(o.cfg, step.push(Prepared(step.data))), slot);
        if last.Some? then last else before
      else before
  }

  lemma {:induction false} LateCountConcat(a: seq<Write>, b: seq<Write>, slot: int)
    ensures LateCount(a + b, slot) == LateCount(a, slot) + LateCount(b, slot)
  {
    if b == [] {
      assert a + b == a;
    } else {
      assert (a + b)[..|a + b| - 1] == a + b[..|b| - 1];
      LateCountConcat(a, b[..|b| - 1], slot);
    }
  }

  lemma {:induction false} LastSetConcat(base: Option<Info>, a: seq<Write>, b: seq<Write>, slot: int)
    ensures LastSet(base, a + b, slot) == LastSet(LastSet(base, a, slot), b, slot)
  {
    if b == [] {
      assert a + b == a;
    } else {
      assert (a + b)[..|a + b| - 1] == a + b[..|b| - 1];
      LastSetConcat(base, a, b[..|b| - 1], slot);
    }
  }

  /** Sets have no late count; incs set nothing. */
  lemma {:induction false} WritesCount(base: Option<Info>, ds: seq<Info>, slot: int)
    ensures LateCount(Writes(false, ds), slot) == 0
    ensures LateCount(Writes(true, ds), slot) == CountAt(ds, slot)
    ensures LastSet(base, Writes(true, ds), slot) == base
    ensures LastSet(base, Writes(false, ds), slot) == if LastAt(ds, slot).Some? then LastAt(ds, slot) else base
  {
    if ds != [] {
      var rest := ds[..|ds| - 1];
      assert Writes(false, ds)[..|ds| - 1] == Writes(false, rest);
      assert Writes(true, ds)[..|ds| - 1] == Writes(true, rest);
      WritesCount(base, rest, slot);
    }
  }

  /** What one step writes, in terms of the point it adds. */
  lemma StepCount(o: Settings, s: System, base: Option<Info>, step: Step, n: string, slot: int)
    requires o.cfg.lib.Contract()
    ensures var w := WritesOf(o, s, step, n);
            && LateCount(w, slot) ==
               (if ArrivesLate(s, step, n) && o.cfg.lib.align(step.data.info.ts) == slot then step.data.info.count else 0)
            && LastSet(base, w, slot) ==
               if step.DoAdd? && step.name == n && !ArrivesLate(s, step, n)
                  && LastAt(Emissions(o.cfg, step.push(Prepared(step.data))), slot).Some?
               then LastAt(Emissions(o.cfg, step.push(Prepared(step.data))), slot)
               else base
  {
    if step.DoAdd? && step.name == n {
      var a := Touched(o.cfg, s.cache, n, step.data.info.ts);
      FirstIsNotLate(o.cfg, s.cache.counter + 1, step.data);
      assert IsLate(a, step.data) <==> ArrivesLate(s, step, n);
      WritesCount(base, AddData(o.cfg, a, step.data, step.push), slot);
      if IsLate(a, step.data) {
        var late := LatePoint(o.cfg.lib, step.data);
        assert [late][..0] == [];
        assert CountAt([late], slot) == if late.ts == slot then step.data.info.count else 0;
      }
    }
  }

  lemma {:induction false} LogCount(o: Settings, s: System, base: Option<Info>, steps: seq<Step>, n: string, slot: int)
    requires o.cfg.lib.Contract()
    ensures LateCount(Log(o, s, steps, n), slot) == LateAdds(o, s, steps, n, slot)
    ensures LastSet(base, Log(o, s, steps, n), slot) == LastHanded(o, s, base, steps, n, slot)
  {
    if steps != [] {
      var rest, step := steps[..|steps| - 1], steps[|steps| - 1];
      LogCount(o, s, base, rest, n, slot);
      var log, w := Log(o, s, rest, n), WritesOf(o, Run(o, s, rest), step, n);
      LateCountConcat(log, w, slot);
      LastSetConcat(base, log, w, slot);
      StepCount(o, Run(o, s, rest), LastSet(base, log, slot), step, n, slot);
    }
  }

  /** So the count stored in a slot is the count of the last point handed over for it plus the
      counts of all late points of that slot, as they were added. */
  lemma LateCountsAreKept(o: Settings, s: System, steps: seq<Step>, n: string, slot: int)
    requires o.cfg.lib.Contract() && !o.disableMerge
    requires Invariant(o, s) && Sealed(s) && AllAllowed(o, s, steps) && RunOnlyAddsTo(o, s, steps, n)
    requires n in Run(o, s, steps).cache.keys
    ensures var id := Run(o, s, steps).cache.keys[n].key.id;
            var base := if n in s.cache.keys then PointAt(s.disk.points, id, slot) else None;
            CountOf(PointAt(Run(o, s, steps).disk.points, id, slot)) ==
            CountOf(LastHanded(o, s, base, steps, n, slot)) + LateAdds(o, s, steps, n, slot)
  {
    LateNeverOverwritten(o, s, steps, n);
    SeriesIsReplay(o, s, steps, n, slot);
    var id := Run(o, s, steps).cache.keys[n].key.id;
    var base := if n in s.cache.keys then PointAt(s.disk.points, id, slot) else None;
    ReplayCount(o.cfg.lib, base, Log(o, s, steps, n), slot);
    LogCount(o, s, base, steps, n, slot);
  }
}
