/** `key_cache` on values: what its operations do to the names, their recorded times and the
    id counter. */
module CacheSpec {
  import opened Wrappers
  import opened Wrtstat
  import opened StoredKeys
  import opened KeyAggregators
  import opened KeyStorages
  import opened Arithmetic
  import Names

  /** `keys` is `_key_map`; `times` is the name-to-time index, from which the time-to-name
      index follows; `counter` is the last id issued. */
  datatype Cache = Cache(keys: map<string, Aggregator>, times: map<string, int>, counter: nat)

  const EMPTY := Cache(map[], map[], 0)

  // ----- operations

  /** The recorded time after `update_time_`: refreshed only when it is old enough. */
  function UpdateTime(cfg: Config, times: map<string, int>, name: string, now: int): map<string, int> {
    if cfg.gcInterval == 0 then times
    else if name in times && times[name] > now - cfg.gcInterval then times
    else times[name := now]
  }

  /** The aggregator `get_or_create` finds, or makes at time `ts`. */
  function Touched(cfg: Config, c: Cache, name: string, ts: int): Aggregator {
    if name in c.keys then c.keys[name] else Made(cfg, c.counter + 1, ts)
  }

  /** `get_or_create`; `ts` is the time of the point it is called for. */
  function Touch(cfg: Config, c: Cache, name: string, ts: int, clock: int): Cache {
    var times := UpdateTime(cfg, c.times, name, clock);
    if name in c.keys then c.(times := times)
    else Cache(c.keys[name := Touched(cfg, c, name, ts)], times, c.counter + 1)
  }

  function IdOf(c: Cache, name: string): Option<nat> {
    if name in c.keys then Some(c.keys[name].key.id) else None
  }

  function AddPoint(cfg: Config, c: Cache, name: string, data: Sample, clock: int, push: Sample -> PushOutcome): Cache {
    var t := Touch(cfg, c, name, data.info.ts, clock);
    t.(keys := t.keys[name := Added(cfg, t.keys[name], data, push)])
  }

  /** The time of the last point of a list, at which a merge makes an aggregator. */
  function LastTime(data: seq<Info>): int {
    if data == [] then 0 else data[|data| - 1].ts
  }

  function MergePoints(cfg: Config, c: Cache, name: string, data: seq<Info>, clock: int): Cache {
    var t := Touch(cfg, c, name, LastTime(data), clock);
    t.(keys := t.keys[name := Merged(cfg, t.keys[name], data)])
  }

  function Delete(c: Cache, name: string): Cache {
    if name in c.keys then c.(keys := c.keys - {name}, times := c.times - {name}) else c
  }

  function Expired(times: map<string, int>, death: int): set<string> {
    set n | n in times && times[n] < death
  }

  function Removed(cfg: Config, c: Cache, clock: int): set<string> {
    if cfg.gcInterval == 0 then {} else Expired(c.times, clock - cfg.ttl)
  }

  function Collect(cfg: Config, c: Cache, clock: int): Cache {
    var dead := Removed(cfg, c, clock);
    c.(keys := c.keys - dead, times := c.times - dead)
  }

  /** The aggregator made from a stored record. */
  function Restored(cfg: Config, k: StoredKey): Aggregator {
    Aggregator(StoredKey(k.id, SetKeyInfo(PRISTINE, k.values)),
               cfg.lib.seed(cfg.lib.begin(k.values.lastUpdate), SeedPoint(k.values)))
  }

  /** The time `init` records: the update time in clock units; 0 would stand for the clock. */
  function InitTime(cfg: Config, s: StoredName): int {
    var upd := TruncDiv(s.key.values.lastUpdate, cfg.resolution);
    if upd != 0 then upd else 1
  }

  /** `init` with a stored record. */
  function Init(cfg: Config, c: Cache, s: StoredName): Cache {
    Cache(if s.name in c.keys then c.keys else c.keys[s.name := Restored(cfg, s.key)],
          UpdateTime(cfg, c.times, s.name, InitTime(cfg, s)),
          if c.counter < s.key.id then s.key.id else c.counter)
  }

  function InitAll(cfg: Config, c: Cache, records: seq<StoredName>): Cache {
    if records == [] then c
    else
      var s := records[|records| - 1];
      Init(cfg, InitAll(cfg, c, records[..|records| - 1]), s)
  }

  lemma {:induction false} InitAllConcat(cfg: Config, c: Cache, a: seq<StoredName>, b: seq<StoredName>)
    ensures InitAll(cfg, InitAll(cfg, c, a), b) == InitAll(cfg, c, a + b)
  {
    if b == [] {
      assert a + b == a;
    } else {
      assert (a + b)[..|a + b| - 1] == a + b[..|b| - 1];
      InitAllConcat(cfg, c, a, b[..|b| - 1]);
    }
  }

  /** The cache built from batches: each batch is loaded by a loop over it. */
  function InitBatches(cfg: Config, c: Cache, batches: seq<seq<StoredName>>): Cache {
    if batches == [] then c
    else InitAll(cfg, InitBatches(cfg, c, batches[..|batches| - 1]), batches[|batches| - 1])
  }

  /** How the records are cut into batches makes no difference to the cache. */
  lemma {:induction false} BatchingIsIrrelevant(cfg: Config, c: Cache, batches: seq<seq<StoredName>>)
    ensures InitBatches(cfg, c, batches) == InitAll(cfg, c, Flatten(batches))
  {
    if batches != [] {
      BatchingIsIrrelevant(cfg, c, batches[..|batches| - 1]);
      InitAllConcat(cfg, c, Flatten(batches[..|batches| - 1]), batches[|batches| - 1]);
    }
  }

  // ----- release

  datatype StoredInfo = StoredInfo(record: StoredName, points: seq<Info>)

  /** What `release` hands over: the record of a name before its last point is popped, and
      that point. */
  function Released(cfg: Config, c: Cache, pop: string -> Option<Info>): (r: seq<StoredInfo>)
    ensures |r| == |Names.Sorted(c.keys.Keys)|
    ensures forall i :: 0 <= i < |r| ==>
                          && r[i].record.name == Names.Sorted(c.keys.Keys)[i]
                          && r[i].record.name in c.keys
                          && r[i].record.key == c.keys[r[i].record.name].key
                          && r[i].points == LastPoint(cfg, pop(r[i].record.name))
  {
    var names := Names.Sorted(c.keys.Keys);
    assert forall i :: 0 <= i < |names| ==> names[i] in names;
    seq(|names|, i requires 0 <= i < |names| =>
      StoredInfo(StoredName(names[i], c.keys[names[i]].key), LastPoint(cfg, pop(names[i]))))
  }

  /** The cache after `release`. */
  function Popped(cfg: Config, c: Cache, pop: string -> Option<Info>): Cache {
    c.(keys := map n | n in c.keys :: Receive(c.keys[n], LastPoint(cfg, pop(n)), c.keys[n].current))
  }

  /** `Released` and `Popped` as far as the loop has come. */
  function ReleasedUpTo(cfg: Config, c: Cache, pop: string -> Option<Info>, names: seq<string>, i: nat): seq<StoredInfo>
    requires i <= |names| && forall j :: 0 <= j < |names| ==> names[j] in c.keys
  {
    if i == 0 then []
    else
      var n := names[i - 1];
      ReleasedUpTo(cfg, c, pop, names, i - 1) + [StoredInfo(StoredName(n, c.keys[n].key), LastPoint(cfg, pop(n)))]
  }

  function PoppedUpTo(cfg: Config, c: Cache, pop: string -> Option<Info>, names: seq<string>, i: nat): (d: Cache)
    requires i <= |names| && forall j :: 0 <= j < |names| ==> names[j] in c.keys
    ensures d.keys.Keys == c.keys.Keys && d.times == c.times && d.counter == c.counter
  {
    if i == 0 then c
    else
      var n, d := names[i - 1], PoppedUpTo(cfg, c, pop, names, i - 1);
      d.(keys := d.keys[n := Receive(c.keys[n], LastPoint(cfg, pop(n)), c.keys[n].current)])
  }

  lemma {:induction false} PoppedAt(cfg: Config, c: Cache, pop: string -> Option<Info>, names: seq<string>, i: nat, n: string)
    requires i <= |names| && forall j :: 0 <= j < |names| ==> names[j] in c.keys
    requires n in c.keys
    ensures PoppedUpTo(cfg, c, pop, names, i).keys[n] ==
            if n in names[..i] then Receive(c.keys[n], LastPoint(cfg, pop(n)), c.keys[n].current) else c.keys[n]
  {
    if i > 0 {
      PoppedAt(cfg, c, pop, names, i - 1, n);
      assert names[..i] == names[..i - 1] + [names[i - 1]];
    }
  }

  lemma NotYetPopped(cfg: Config, c: Cache, pop: string -> Option<Info>, names: seq<string>, i: nat)
    requires i < |names| && forall j :: 0 <= j < |names| ==> names[j] in c.keys
    requires forall j, k :: 0 <= j < k < |names| ==> names[j] != names[k]
    ensures PoppedUpTo(cfg, c, pop, names, i).keys[names[i]] == c.keys[names[i]]
  {
    PoppedAt(cfg, c, pop, names, i, names[i]);
  }

  /** The loop over all names releases every record and pops every last point. */
  lemma AllPopped(cfg: Config, c: Cache, pop: string -> Option<Info>, names: seq<string>)
    requires names == Names.Sorted(c.keys.Keys)
    requires forall j :: 0 <= j < |names| ==> names[j] in c.keys
    ensures PoppedUpTo(cfg, c, pop, names, |names|) == Popped(cfg, c, pop)
    ensures ReleasedUpTo(cfg, c, pop, names, |names|) == Released(cfg, c, pop)
  {
    EveryNamePopped(cfg, c, pop, names);
    ReleasedAt(cfg, c, pop, names, |names|);
  }

  lemma EveryNamePopped(cfg: Config, c: Cache, pop: string -> Option<Info>, names: seq<string>)
    requires names == Names.Sorted(c.keys.Keys)
    requires forall j :: 0 <= j < |names| ==> names[j] in c.keys
    ensures PoppedUpTo(cfg, c, pop, names, |names|) == Popped(cfg, c, pop)
  {
    var d, e := PoppedUpTo(cfg, c, pop, names, |names|), Popped(cfg, c, pop);
    forall n | n in c.keys ensures Same(d.keys[n], e.keys[n]) {
      NamePopped(cfg, c, pop, names, n);
    }
    SameMaps(d.keys, e.keys);
  }

  lemma NamePopped(cfg: Config, c: Cache, pop: string -> Option<Info>, names: seq<string>, n: string)
    requires forall j :: 0 <= j < |names| ==> names[j] in c.keys
    requires n in names && n in c.keys
    ensures Same(PoppedUpTo(cfg, c, pop, names, |names|).keys[n], Popped(cfg, c, pop).keys[n])
  {
    assert names[..|names|] == names;
    PoppedAt(cfg, c, pop, names, |names|, n);
  }

  lemma SameMaps<V>(a: map<string, V>, b: map<string, V>)
    requires a.Keys == b.Keys && forall n :: n in a ==> Same(a[n], b[n])
    ensures a == b
  {
  }

  lemma {:induction false} ReleasedAt(cfg: Config, c: Cache, pop: string -> Option<Info>, names: seq<string>, i: nat)
    requires i <= |names| && forall j :: 0 <= j < |names| ==> names[j] in c.keys
    ensures |ReleasedUpTo(cfg, c, pop, names, i)| == i
    ensures forall j :: 0 <= j < i ==> ReleasedUpTo(cfg, c, pop, names, i)[j] ==
                                       StoredInfo(StoredName(names[j], c.keys[names[j]].key), LastPoint(cfg, pop(names[j])))
  {
    if i > 0 { ReleasedAt(cfg, c, pop, names, i - 1); }
  }

  // ----- the indexes agree

  /** With gc on every cached name has a recorded time and no other name has; with gc off
      there are no recorded times. */
  ghost predicate IndexesAgree(cfg: Config, c: Cache) {
    c.times.Keys == if cfg.gcInterval == 0 then {} else c.keys.Keys
  }

  lemma TouchKeepsIndexes(cfg: Config, c: Cache, name: string, ts: int, clock: int)
    requires IndexesAgree(cfg, c)
    ensures IndexesAgree(cfg, Touch(cfg, c, name, ts, clock))
    ensures Touch(cfg, c, name, ts, clock).keys.Keys == c.keys.Keys + {name}
  {
    assert UpdateTime(cfg, c.times, name, clock).Keys == (if cfg.gcInterval == 0 then {} else c.keys.Keys + {name});
  }

  lemma InitKeepsIndexes(cfg: Config, c: Cache, s: StoredName)
    requires IndexesAgree(cfg, c)
    ensures IndexesAgree(cfg, Init(cfg, c, s))
    ensures Init(cfg, c, s).keys.Keys == c.keys.Keys + {s.name}
  {
    var d := Init(cfg, c, s);
    assert d.times.Keys == (if cfg.gcInterval == 0 then {} else c.keys.Keys + {s.name});
  }

  lemma DeleteKeepsIndexes(cfg: Config, c: Cache, name: string)
    requires IndexesAgree(cfg, c)
    ensures IndexesAgree(cfg, Delete(c, name))
    ensures cfg.gcInterval == 0 ==> Delete(c, name).times == c.times
  {
  }

  lemma CollectKeepsIndexes(cfg: Config, c: Cache, clock: int)
    requires IndexesAgree(cfg, c)
    ensures IndexesAgree(cfg, Collect(cfg, c, clock))
  {
  }

  lemma NothingToCollect(cfg: Config, c: Cache, clock: int)
    requires cfg.gcInterval == 0 || c.times == map[]
    ensures Collect(cfg, c, clock) == c && Removed(cfg, c, clock) == {}
  {
    assert cfg.gcInterval != 0 ==> Expired(c.times, clock - cfg.ttl) == {};
  }

  // ----- collection

  /** The names a collection removes are exactly those recorded before T - TTL. */
  lemma CollectRemovesExactly(cfg: Config, c: Cache, clock: int)
    requires IndexesAgree(cfg, c)
    ensures forall n :: n in c.keys && n !in Collect(cfg, c, clock).keys <==>
                        n in c.keys && n in c.times && c.times[n] < clock - cfg.ttl
    ensures forall n :: n in Collect(cfg, c, clock).keys ==> Collect(cfg, c, clock).keys[n] == c.keys[n]
  {
  }
}
