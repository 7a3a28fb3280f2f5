/** `key_aggregator`: the state kept for one name. */
module KeyAggregators {
  import opened Wrappers
  import opened Wrtstat
  import opened StoredKeys

  type Positive = n: int | n > 0 witness 1

  /** The part of `key_cache_options` the cache and its aggregators consult. */
  datatype Config = Config(lib: Library, aggregateLastPoint: bool, ttl: int, gcInterval: int, resolution: Positive)

  // ----- update_field_ and update_info_

  function UpdateField(field: StoredPair, v: int, t: int): StoredPair {
    if field.value < v then StoredPair(v, t) else field
  }

  function UpdateBasic(b: StoredBasic, d: Info, weight: int): StoredBasic {
    StoredBasic(
      avg := UpdateField(b.avg, d.avg * weight, d.ts),
      perc50 := UpdateField(b.perc50, d.perc.perc50 * weight, d.ts),
      perc80 := UpdateField(b.perc80, d.perc.perc80 * weight, d.ts),
      perc95 := UpdateField(b.perc95, d.perc.perc95 * weight, d.ts),
      perc99 := UpdateField(b.perc99, d.perc.perc99 * weight, d.ts),
      perc100 := UpdateField(b.perc100, d.perc.perc100 * weight, d.ts),
      min := UpdateField(b.min, d.min * weight, d.ts),
      max := UpdateField(b.max, d.max * weight, d.ts))
  }

  function UpdateInfo(v: StoredValues, d: Info): StoredValues {
    StoredValues(d.ts,
                 UpdateField(v.count, d.count, d.ts),
                 UpdateField(v.lossy, d.lossy, d.ts),
                 UpdateBasic(v.max, d, 1),
                 UpdateBasic(v.pow, d, d.count))
  }

  lemma UpdateInfoAt(v: StoredValues, d: Info, f: Field)
    ensures Pair(UpdateInfo(v, d), f) == UpdateField(Pair(v, f), Contribution(d, f), d.ts)
  {
  }

  /** The record after the points `xs`, in order. */
  function Observe(v: StoredValues, xs: seq<Info>): StoredValues {
    if xs == [] then v else UpdateInfo(Observe(v, xs[..|xs| - 1]), xs[|xs| - 1])
  }

  /** Merging `xs` and then `ys` leaves the record that merging `xs + ys` leaves. */
  lemma {:induction false} ObserveConcat(v: StoredValues, xs: seq<Info>, ys: seq<Info>)
    ensures Observe(Observe(v, xs), ys) == Observe(v, xs + ys)
  {
    if ys == [] {
      assert xs + ys == xs;
    } else {
      var zs := xs + ys;
      assert zs[..|zs| - 1] == xs + ys[..|ys| - 1];
      ObserveConcat(v, xs, ys[..|ys| - 1]);
    }
  }

  // ----- the record is a running first argmax

  function Contributions(xs: seq<Info>, f: Field): (s: seq<StoredPair>)
    ensures |s| == |xs|
    ensures forall i :: 0 <= i < |s| ==> s[i] == StoredPair(Contribution(xs[i], f), xs[i].ts)
  {
    seq(|xs|, i requires 0 <= i < |xs| => StoredPair(Contribution(xs[i], f), xs[i].ts))
  }

  /** `p` is the maximum of 0 and the values of `s`, with the time of the first element that
      reaches it (time 0 when no value is positive). */
  ghost predicate IsFirstMax(p: StoredPair, s: seq<StoredPair>) {
    && 0 <= p.value
    && (forall i :: 0 <= i < |s| ==> s[i].value <= p.value)
    && (p.value == 0 ==> p.ts == 0)
    && (p.value > 0 ==> exists k :: FirstReaches(p, s, k))
  }

  ghost predicate FirstReaches(p: StoredPair, s: seq<StoredPair>, k: int) {
    0 <= k < |s| && s[k] == p && forall j :: 0 <= j < k ==> s[j].value < p.value
  }

  lemma FirstMaxUnique(p: StoredPair, q: StoredPair, s: seq<StoredPair>)
    requires IsFirstMax(p, s) && IsFirstMax(q, s)
    ensures p == q
  {
    if p.value > 0 && q.value > 0 {
      var k :| FirstReaches(p, s, k);
      var l :| FirstReaches(q, s, l);
      assert k == l;
    }
  }

  lemma FirstMaxExtend(p: StoredPair, s: seq<StoredPair>, x: StoredPair)
    requires IsFirstMax(p, s)
    ensures IsFirstMax(UpdateField(p, x.value, x.ts), s + [x])
  {
    var q := UpdateField(p, x.value, x.ts);
    if p.value < x.value {
      assert FirstReaches(q, s + [x], |s|);
    } else if p.value > 0 {
      var k :| FirstReaches(p, s, k);
      assert FirstReaches(p, s + [x], k);
    }
  }

  /** From a pristine record, every field is the first argmax of what the points contribute. */
  lemma {:induction false} ObserveIsFirstMax(xs: seq<Info>, f: Field)
    ensures IsFirstMax(Pair(Observe(PRISTINE, xs), f), Contributions(xs, f))
    ensures Observe(PRISTINE, xs).lastUpdate == if xs == [] then 0 else xs[|xs| - 1].ts
  {
    if xs != [] {
      var ys, d := xs[..|xs| - 1], xs[|xs| - 1];
      ObserveIsFirstMax(ys, f);
      UpdateInfoAt(Observe(PRISTINE, ys), d, f);
      FirstMaxExtend(Pair(Observe(PRISTINE, ys), f), Contributions(ys, f), StoredPair(Contribution(d, f), d.ts));
      assert Contributions(xs, f) == Contributions(ys, f) + [StoredPair(Contribution(d, f), d.ts)];
    }
  }

  // ----- set_field_ and set_key_info: restoring from a stored record

  function SetField(begTs: int, f1: StoredPair, f2: StoredPair): StoredPair {
    if f1.ts < begTs || f1.value < f2.value then f2 else f1
  }

  function SetBasic(begTs: int, b: StoredBasic, k: StoredBasic): StoredBasic {
    StoredBasic(
      avg := SetField(begTs, b.avg, k.avg),
      perc50 := SetField(begTs, b.perc50, k.perc50),
      perc80 := SetField(begTs, b.perc80, k.perc80),
      perc95 := SetField(begTs, b.perc95, k.perc95),
      perc99 := SetField(begTs, b.perc99, k.perc99),
      perc100 := SetField(begTs, b.perc100, k.perc100),
      min := SetField(begTs, b.min, k.min),
      max := SetField(begTs, b.max, k.max))
  }

  function SetKeyInfo(v: StoredValues, ki: StoredValues): StoredValues {
    var begTs := ki.lastUpdate;
    StoredValues(ki.lastUpdate,
                 SetField(begTs, v.count, ki.count),
                 SetField(begTs, v.lossy, ki.lossy),
                 SetBasic(begTs, v.max, ki.max),
                 SetBasic(begTs, v.pow, ki.pow))
  }

  lemma SetKeyInfoAt(v: StoredValues, ki: StoredValues, f: Field)
    ensures Pair(SetKeyInfo(v, ki), f) == SetField(ki.lastUpdate, Pair(v, f), Pair(ki, f))
  {
  }

  /** The point `set_key_info` adds to the aggregator. */
  function SeedPoint(ki: StoredValues): Info {
    Info(ki.count.ts, ki.count.value, ki.lossy.value, ki.max.min.value, ki.max.max.value, ki.max.avg.value, ZERO.perc)
  }

  /** A pair that is either positive or untouched. */
  predicate NormalPair(p: StoredPair) { p.value > 0 || p == NO_PAIR }

  ghost predicate Normal(v: StoredValues) { forall f :: NormalPair(Pair(v, f)) }

  /** Restoring a fresh aggregator reproduces the record exactly when it has a positive update
      time or only normal pairs. */
  lemma RestoreExactlyWhen(ki: StoredValues)
    ensures SetKeyInfo(PRISTINE, ki) == ki <==> ki.lastUpdate > 0 || Normal(ki)
  {
    var r := SetKeyInfo(PRISTINE, ki);
    forall f
      ensures Pair(r, f) == Pair(ki, f) <==> ki.lastUpdate > 0 || NormalPair(Pair(ki, f))
    {
      SetKeyInfoAt(PRISTINE, ki, f);
      assert Pair(PRISTINE, f) == NO_PAIR;
    }
    if forall f :: Pair(r, f) == Pair(ki, f) {
      SameValues(r, ki);
    }
  }

  lemma UpdateKeepsNormal(v: StoredValues, d: Info)
    requires Normal(v)
    ensures Normal(UpdateInfo(v, d))
  {
    forall f ensures NormalPair(Pair(UpdateInfo(v, d), f)) {
      UpdateInfoAt(v, d, f);
      assert NormalPair(Pair(v, f));
    }
  }

  lemma {:induction false} ObserveKeepsNormal(v: StoredValues, xs: seq<Info>)
    requires Normal(v)
    ensures Normal(Observe(v, xs))
  {
    if xs != [] {
      ObserveKeepsNormal(v, xs[..|xs| - 1]);
      UpdateKeepsNormal(Observe(v, xs[..|xs| - 1]), xs[|xs| - 1]);
    }
  }

  lemma PristineIsNormal()
    ensures Normal(PRISTINE)
  {
    forall f ensures NormalPair(Pair(PRISTINE, f)) {
      assert Pair(PRISTINE, f) == NO_PAIR;
    }
  }

  /** Whatever was observed, and whatever the sign of its times, restoring reproduces it. */
  lemma RestoreReachable(xs: seq<Info>)
    ensures SetKeyInfo(PRISTINE, Observe(PRISTINE, xs)) == Observe(PRISTINE, xs)
  {
    PristineIsNormal();
    ObserveKeepsNormal(PRISTINE, xs);
    RestoreExactlyWhen(Observe(PRISTINE, xs));
  }

  /** A record with time but no value is lost when its update time is not positive. */
  lemma RestoreCanLose()
    ensures exists ki: StoredValues :: SetKeyInfo(PRISTINE, ki) != ki
  {
    var ki := PRISTINE.(lossy := StoredPair(0, 7));
    assert !NormalPair(Pair(ki, Lossy));
    RestoreExactlyWhen(ki);
  }

  // ----- merge: alignment and coalescing

  function Aligned(lib: Library, xs: seq<Info>): (r: seq<Info>)
    ensures |r| == |xs|
    ensures forall i :: 0 <= i < |xs| ==> r[i] == xs[i].(ts := lib.align(xs[i].ts))
  {
    seq(|xs|, i requires 0 <= i < |xs| => xs[i].(ts := lib.align(xs[i].ts)))
  }

  /** One step of the merge loop on `up_data`. */
  function Absorb(lib: Library, up: seq<Info>, d: Info): seq<Info> {
    if up == [] || up[|up| - 1].ts != d.ts then up + [d]
    else up[|up| - 1 := lib.plus(up[|up| - 1], d)]
  }

  function Coalesce(lib: Library, xs: seq<Info>): seq<Info> {
    if xs == [] then [] else Absorb(lib, Coalesce(lib, xs[..|xs| - 1]), xs[|xs| - 1])
  }

  // ----- add: routing

  /** The abstract value of an aggregator: its record and its separator's time. */
  datatype Aggregator = Aggregator(key: StoredKey, current: int)

  /** A new aggregator, made at time `ts`. */
  function Made(cfg: Config, id: nat, ts: int): Aggregator {
    Aggregator(StoredKey(id, PRISTINE), cfg.lib.begin(ts))
  }

  /** A point at the time the aggregator was made is not late. */
  lemma FirstIsNotLate(cfg: Config, id: nat, data: Sample)
    requires cfg.lib.Contract()
    ensures !IsLate(Made(cfg, id, data.info.ts), data)
  {
  }

  /** The values `add` makes up for a point without raw data: 51, 30, 15, 4 and 1 of them. */
  function MadeUp(p: Percentiles): seq<int> {
    seq(101, i => if i < 51 then p.perc50 else if i < 81 then p.perc80 else if i < 96 then p.perc95
                          else if i < 100 then p.perc99 else p.perc100)
  }

  /** What `add` pushes: a point without raw data gets values made up from its percentiles. */
  function Prepared(data: Sample): Sample {
    if data.values == [] && data.info.max != 0 then data.(values := MadeUp(data.info.perc)) else data
  }

  /** A late point by-passes the aggregator. */
  predicate IsLate(a: Aggregator, data: Sample) {
    data.info.ts != 0 && data.info.ts < a.current
  }

  function LatePoint(lib: Library, data: Sample): Info {
    data.info.(perc := lib.calcPerc(data), ts := lib.align(data.info.ts))
  }

  /** Everything a push hands over, in order. */
  function Emissions(cfg: Config, out: PushOutcome): seq<Info> {
    out.emitted + LastPoint(cfg, out.last)
  }

  function LastPoint(cfg: Config, last: Option<Info>): seq<Info> {
    if cfg.aggregateLastPoint && last.Some? then [last.value] else []
  }

  function Receive(a: Aggregator, xs: seq<Info>, current: int): Aggregator {
    Aggregator(a.key.(values := Observe(a.key.values, xs)), current)
  }

  /** `push` is what the library makes of the sample pushed. */
  function Added(cfg: Config, a: Aggregator, data: Sample, push: Sample -> PushOutcome): Aggregator {
    var out := push(Prepared(data));
    if IsLate(a, data) then a else Receive(a, Emissions(cfg, out), out.current)
  }

  function AddData(cfg: Config, a: Aggregator, data: Sample, push: Sample -> PushOutcome): seq<Info> {
    if IsLate(a, data) then [LatePoint(cfg.lib, data)] else Emissions(cfg, push(Prepared(data)))
  }

  /** The library's side of an add. */
  ghost predicate Pushes(lib: Library, a: Aggregator, data: Sample, push: Sample -> PushOutcome) {
    IsLate(a, data) || Accepts(lib, a.current, push(Prepared(data)))
  }

  function Merged(cfg: Config, a: Aggregator, data: seq<Info>): Aggregator {
    Receive(a, Aligned(cfg.lib, data), a.current)
  }

  /** `get_aggregated_info`: the stored values of a key, plain or weighed. */
  function KeyInfo(v: StoredValues, pow: bool): Info {
    var b := if pow then v.pow else v.max;
    Info(0, v.count.value, v.lossy.value, b.min.value, b.max.value, b.avg.value,
         Percentiles(b.perc50.value, b.perc80.value, b.perc95.value, b.perc99.value, b.perc100.value))
  }

  lemma KeyInfoAt(v: StoredValues, pow: bool, m: Measure)
    ensures Measured(KeyInfo(v, pow), m) == Pair(v, if pow then Power(m) else Peak(m)).value
    ensures KeyInfo(v, pow).count == Pair(v, Count).value
    ensures KeyInfo(v, pow).lossy == Pair(v, Lossy).value
  {
  }

  // ----- made-up values

  /** The value at percentile `p`, by nearest rank. */
  function NearestRank(s: seq<int>, p: nat): int
    requires s != [] && 0 < p <= 100
  {
    s[(p * |s| + 99) / 100 - 1]
  }

  /** The percentiles of the made-up values are the ones they were made from. */
  lemma MadeUpHasPercentiles(p: Percentiles)
    requires p.perc50 <= p.perc80 <= p.perc95 <= p.perc99 <= p.perc100
    ensures var s := MadeUp(p);
            && (forall i, j :: 0 <= i < j < |s| ==> s[i] <= s[j])
            && p == Percentiles(NearestRank(s, 50), NearestRank(s, 80), NearestRank(s, 95), NearestRank(s, 99), NearestRank(s, 100))
  {
  }

  method Times(n: nat, v: int) returns (r: seq<int>)
    ensures |r| == n && forall i :: 0 <= i < n ==> r[i] == v
  {
    r := [];
    for i := 0 to n
      invariant |r| == i && forall j :: 0 <= j < i ==> r[j] == v
    {
      r := r + [v];
    }
  }

  /** The five loops that fill in the raw data. */
  method MakeUp(p: Percentiles) returns (values: seq<int>)
    ensures values == MadeUp(p)
  {
    var low := Times(51, p.perc50);
    var mid := Times(30, p.perc80);
    var high := Times(15, p.perc95);
    var top := Times(4, p.perc99);
    values := low + mid + high + top + [p.perc100];
  }

  class KeyAggregator {
    const cfg: Config
    ghost const name: string  // the name it was made for
    var keyInfo: StoredKey
    var current: int  // _aggregator.get_separator().current_time()

    function Value(): Aggregator
      reads this
    {
      Aggregator(keyInfo, current)
    }

    constructor (cfg: Config, ghost name: string, id: nat, ts: int)
      ensures this.cfg == cfg && this.name == name
      ensures Value() == Made(cfg, id, ts)
    {
      this.cfg := cfg;
      this.name := name;
      keyInfo := StoredKey(id, PRISTINE);
      current := cfg.lib.begin(ts);
    }

    method UpdateInfo_(d: Info)
      modifies this`keyInfo
      ensures keyInfo == old(keyInfo).(values := UpdateInfo(old(keyInfo.values), d))
    {
      var v := keyInfo.values;
      v := v.(lastUpdate := d.ts);
      v := v.(count := UpdateField(v.count, d.count, d.ts));
      v := v.(lossy := UpdateField(v.lossy, d.lossy, d.ts));
      v := v.(max := UpdateBasic(v.max, d, 1));
      v := v.(pow := UpdateBasic(v.pow, d, d.count));
      keyInfo := keyInfo.(values := v);
    }

    method Merge(data: seq<Info>) returns (upData: seq<Info>)
      modifies this
      ensures Value() == Merged(cfg, old(Value()), data)
      ensures upData == Coalesce(cfg.lib, Aligned(cfg.lib, data))
    {
      upData := [];
      ghost var xs := Aligned(cfg.lib, data);
      for i := 0 to |data|
        invariant keyInfo == old(keyInfo).(values := Observe(old(keyInfo.values), xs[..i]))
        invariant current == old(current)
        invariant upData == Coalesce(cfg.lib, xs[..i])
      {
        var d := data[i].(ts := cfg.lib.align(data[i].ts));
        UpdateInfo_(d);
        if upData == [] || upData[|upData| - 1].ts != d.ts {
          upData := upData + [d];
        } else {
          upData := upData[|upData| - 1 := cfg.lib.plus(upData[|upData| - 1], d)];
        }
        assert xs[..i + 1][..i] == xs[..i] && xs[..i + 1][i] == d;
      }
      assert xs[..|data|] == xs;
    }

    /** The handler of one push, then the current slot when it is aggregated as well. */
    method Add(data: Sample, push: Sample -> PushOutcome) returns (upData: seq<Info>, isLast: bool)
      requires Pushes(cfg.lib, Value(), data, push)
      modifies this
      ensures isLast == !IsLate(old(Value()), data)
      ensures Value() == Added(cfg, old(Value()), data, push)
      ensures upData == AddData(cfg, old(Value()), data, push)
    {
      if data.info.ts != 0 && data.info.ts < current {
        var ai := data.info.(perc := cfg.lib.calcPerc(data));
        ai := ai.(ts := cfg.lib.align(data.info.ts));
        return [ai], false;
      }
      isLast := true;
      upData := [];
      var pushed := data;
      if pushed.values == [] && pushed.info.max != 0 {
        var values := MakeUp(pushed.info.perc);
        pushed := pushed.(values := values);
      }
      var out := push(pushed);
      current := out.current;
      for i := 0 to |out.emitted|
        invariant keyInfo == old(keyInfo).(values := Observe(old(keyInfo.values), out.emitted[..i]))
        invariant current == out.current
        invariant upData == out.emitted[..i]
      {
        UpdateInfo_(out.emitted[i]);
        upData := upData + [out.emitted[i]];
        assert out.emitted[..i + 1][..i] == out.emitted[..i];
      }
      assert out.emitted[..|out.emitted|] == out.emitted;
      var last := AggregateLastPoint(out.last);
      upData := upData + last;
      ObserveConcat(old(keyInfo.values), out.emitted, last);
    }

    method AggregateLastPoint(last: Option<Info>) returns (upData: seq<Info>)
      modifies this`keyInfo
      ensures upData == LastPoint(cfg, last)
      ensures keyInfo == old(keyInfo).(values := Observe(old(keyInfo.values), upData))
    {
      upData := [];
      if cfg.aggregateLastPoint && last.Some? {
        UpdateInfo_(last.value);
        upData := [last.value];
        assert upData[..0] == [];
      }
    }

    /** `set_key_info`: the record is taken over, and the aggregator gets its point as a seed. */
    method RestoreKeyInfo(ki: StoredValues)
      modifies this
      ensures Value() == Aggregator(StoredKey(old(keyInfo.id), SetKeyInfo(old(keyInfo.values), ki)),
                                    cfg.lib.seed(old(current), SeedPoint(ki)))
    {
      var begTs := ki.lastUpdate;
      var v := keyInfo.values;
      v := v.(count := SetField(begTs, v.count, ki.count));
      v := v.(lossy := SetField(begTs, v.lossy, ki.lossy));
      v := v.(max := SetBasic(begTs, v.max, ki.max));
      v := v.(pow := SetBasic(begTs, v.pow, ki.pow));
      v := v.(lastUpdate := ki.lastUpdate);
      keyInfo := keyInfo.(values := v);
      current := cfg.lib.seed(current, SeedPoint(ki));
    }
  }
}
