module Wrappers {
  datatype Option<+T> = None | Some(value: T)

  /** Equality, not looked into field by field. */
  ghost predicate Same<T>(a: T, b: T) { a == b }
}

/** The aggregation library the storage is built on.  Its source is not part of this model:
    the operations the storage relies on are function values, and `Contract` is all that is
    assumed about them. */
module Wrtstat {
  import opened Wrappers

  datatype Percentiles = Percentiles(perc50: int, perc80: int, perc95: int, perc99: int, perc100: int)

  /** `aggregated_info`: one point of a series. */
  datatype Info = Info(ts: int, count: int, lossy: int, min: int, max: int, avg: int, perc: Percentiles)

  /** `aggregated_data`: a point together with the raw values it was computed from. */
  datatype Sample = Sample(info: Info, values: seq<int>)

  const ZERO := Info(0, 0, 0, 0, 0, 0, Percentiles(0, 0, 0, 0, 0))

  /** `align` is `separator::get_ts`, `begin` the separator's time in an aggregator made at a
      time, `seed` that time after `aggregator::add` of a point, `plus` is
      `aggregated_info::operator+=` and `calcPerc` is `basic_aggregator::calc_perc`. */
  datatype Library = Library(
    align: int -> int,
    begin: int -> int,
    seed: (int, Info) -> int,
    plus: (Info, Info) -> Info,
    calcPerc: Sample -> Percentiles)
  {
    ghost predicate Contract() {
      && (forall t :: 0 <= t ==> 0 <= align(t))
      && (forall t :: align(t) <= t)
      && (forall t :: align(align(t)) == align(t))
      && (forall s, t :: s <= t ==> align(s) <= align(t))
      && (forall t :: 0 <= t ==> 0 <= begin(t))
      && (forall t :: t != 0 ==> begin(t) <= t)
      && (forall t :: align(begin(t)) == begin(t))
      && (forall t: int, d: Info :: t <= seed(t, d))
      && (forall t: int, d: Info :: align(t) == t ==> align(seed(t, d)) == seed(t, d))
      && (forall a, b :: plus(a, b).count == a.count + b.count)
      && (forall a: Info, b: Info :: a.ts == b.ts ==> plus(a, b).ts == a.ts)
    }
  }

  /** A library with slots of length one, as an example. */
  const PLAIN := Library(t => t, t => t, (t, d) => t, (a: Info, b: Info) => a.(count := a.count + b.count),
                         d => Percentiles(0, 0, 0, 0, 0))

  lemma PlainKeepsContract()
    ensures PLAIN.Contract()
  {
  }

  /** What one `aggregator::push` does: the aggregates it hands to the handler, the aggregate
      of the current slot if there is one, and the separator's time afterwards. */
  datatype PushOutcome = PushOutcome(emitted: seq<Info>, last: Option<Info>, current: int)

  /** The library's side of a push (or forced pop) made when the separator's time is
      `current`: time is aligned and does not go back, and nothing older is emitted. */
  ghost predicate Accepts(lib: Library, current: int, out: PushOutcome) {
    && current <= out.current
    && lib.align(out.current) == out.current
    && (forall i :: 0 <= i < |out.emitted| ==> current <= out.emitted[i].ts)
    && (out.last.Some? ==> current <= out.last.value.ts)
  }
}

/** Persistent key records: for every measured field the largest value seen and its time. */
module StoredKeys {
  import opened Wrtstat

  datatype StoredPair = StoredPair(value: int, ts: int)

  datatype StoredBasic = StoredBasic(avg: StoredPair, perc50: StoredPair, perc80: StoredPair,
                                     perc95: StoredPair, perc99: StoredPair, perc100: StoredPair,
                                     min: StoredPair, max: StoredPair)

  datatype StoredValues = StoredValues(lastUpdate: int, count: StoredPair, lossy: StoredPair,
                                       max: StoredBasic, pow: StoredBasic)

  datatype StoredKey = StoredKey(id: nat, values: StoredValues)

  const NO_PAIR := StoredPair(0, 0)
  const NO_BASIC := StoredBasic(NO_PAIR, NO_PAIR, NO_PAIR, NO_PAIR, NO_PAIR, NO_PAIR, NO_PAIR, NO_PAIR)
  const PRISTINE := StoredValues(0, NO_PAIR, NO_PAIR, NO_BASIC, NO_BASIC)

  // ----- the fields of a key record, by name

  datatype Measure = Avg | Perc50 | Perc80 | Perc95 | Perc99 | Perc100 | Min | Max

  datatype Field = Count | Lossy | Peak(m: Measure) | Power(m: Measure)

  function BasicPair(b: StoredBasic, m: Measure): StoredPair {
    match m
    case Avg => b.avg
    case Perc50 => b.perc50
    case Perc80 => b.perc80
    case Perc95 => b.perc95
    case Perc99 => b.perc99
    case Perc100 => b.perc100
    case Min => b.min
    case Max => b.max
  }

  function Pair(v: StoredValues, f: Field): StoredPair {
    match f
    case Count => v.count
    case Lossy => v.lossy
    case Peak(m) => BasicPair(v.max, m)
    case Power(m) => BasicPair(v.pow, m)
  }

  function Measured(d: Info, m: Measure): int {
    match m
    case Avg => d.avg
    case Perc50 => d.perc.perc50
    case Perc80 => d.perc.perc80
    case Perc95 => d.perc.perc95
    case Perc99 => d.perc.perc99
    case Perc100 => d.perc.perc100
    case Min => d.min
    case Max => d.max
  }

  /** What a point contributes to a field: the power fields weigh a value with the count. */
  function Contribution(d: Info, f: Field): int {
    match f
    case Count => d.count
    case Lossy => d.lossy
    case Peak(m) => Measured(d, m)
    case Power(m) => Measured(d, m) * d.count
  }

  lemma SameBasic(a: StoredBasic, b: StoredBasic)
    requires forall m :: BasicPair(a, m) == BasicPair(b, m)
    ensures a == b
  {
    assert BasicPair(a, Avg) == BasicPair(b, Avg) && BasicPair(a, Perc50) == BasicPair(b, Perc50);
    assert BasicPair(a, Perc80) == BasicPair(b, Perc80) && BasicPair(a, Perc95) == BasicPair(b, Perc95);
    assert BasicPair(a, Perc99) == BasicPair(b, Perc99) && BasicPair(a, Perc100) == BasicPair(b, Perc100);
    assert BasicPair(a, Min) == BasicPair(b, Min) && BasicPair(a, Max) == BasicPair(b, Max);
  }

  /** A record is determined by its update time and its fields. */
  lemma SameValues(a: StoredValues, b: StoredValues)
    requires a.lastUpdate == b.lastUpdate
    requires forall f :: Pair(a, f) == Pair(b, f)
    ensures a == b
  {
    assert Pair(a, Count) == Pair(b, Count) && Pair(a, Lossy) == Pair(b, Lossy);
    forall m ensures BasicPair(a.max, m) == BasicPair(b.max, m) && BasicPair(a.pow, m) == BasicPair(b.pow, m) {
      assert Pair(a, Peak(m)) == Pair(b, Peak(m)) && Pair(a, Power(m)) == Pair(b, Power(m));
    }
    SameBasic(a.max, b.max);
    SameBasic(a.pow, b.pow);
  }
}
