/** `key_cache`: the cache of aggregators with its three indexes. */
module KeyCaches {
  import opened Wrappers
  import opened Order
  import opened Wrtstat
  import opened StoredKeys
  import opened KeyAggregators
  import opened KeyStorages
  import opened CacheSpec
  import opened Arithmetic
  import opened Selection
  import opened Tree
  import Names

  type TimeName = (int, string)

  /** The order of `std::pair<time_t, std::string>`. */
  predicate TimeNameLess(a: TimeName, b: TimeName) {
    a.0 < b.0 || (a.0 == b.0 && Names.Less(a.1, b.1))
  }

  lemma TimeNameLessIsStrictTotal()
    ensures StrictTotal(TimeNameLess)
  {
    Names.LessIsStrictTotal();
  }

  /** The time-to-name index that belongs to a name-to-time index: one entry per name. */
  ghost predicate Mirrors(timeKeySet: multiset<TimeName>, keyTimeMap: map<string, int>) {
    forall p: TimeName {:trigger timeKeySet[p]} :: timeKeySet[p] == if p.1 in keyTimeMap && keyTimeMap[p.1] == p.0 then 1 else 0
  }

  /** Mirrored indexes have the same size, so the size checks of the cache never fail. */
  lemma {:induction false} MirroredSize(timeKeySet: multiset<TimeName>, keyTimeMap: map<string, int>)
    requires Mirrors(timeKeySet, keyTimeMap)
    ensures |timeKeySet| == |keyTimeMap|
    decreases |keyTimeMap|
  {
    if keyTimeMap == map[] {
      assert timeKeySet == multiset{};
    } else {
      var n :| n in keyTimeMap;
      var p := (keyTimeMap[n], n);
      var rest := keyTimeMap - {n};
      assert rest.Keys == keyTimeMap.Keys - {n};
      assert |rest| == |rest.Keys| == |keyTimeMap.Keys| - 1;
      MirroredSize(timeKeySet - multiset{p}, rest);
      assert timeKeySet == (timeKeySet - multiset{p}) + multiset{p};
    }
  }

  class KeyCache {
    const cfg: Config
    var keyCounter: nat
    var keyMap: map<string, KeyAggregator>
    var timeKeySet: multiset<TimeName>
    var keyTimeMap: map<string, int>

    ghost var keys: map<string, Aggregator>  // the values of the aggregators
    ghost var Repr: set<object>  // the aggregators

    /** Every name has an aggregator of its own, whose value is in `keys`. */
    ghost predicate Linked()
      reads this`keyMap, this`keys, this`Repr, Repr
    {
      && this !in Repr
      && keys.Keys == keyMap.Keys
      && forall n :: n in keyMap ==> Links(n)
    }

    ghost predicate Links(n: string)
      requires n in keyMap
      reads this`keyMap, this`keys, this`Repr, Repr
    {
      && keyMap[n] in Repr && keyMap[n].cfg == cfg && keyMap[n].name == n
      && n in keys && Same(keys[n], keyMap[n].Value())
    }

    /** The cache on values. */
    ghost function State(): Cache
      reads this`keys, this`keyTimeMap, this`keyCounter
    {
      Cache(keys, keyTimeMap, keyCounter)
    }

    /** The three indexes agree. */
    ghost predicate Valid()
      reads this, Repr
    {
      Linked() && Mirrors(timeKeySet, keyTimeMap) && IndexesAgree(cfg, State())
    }

    constructor (cfg: Config)
      ensures this.cfg == cfg && Valid() && Repr == {}
      ensures State() == EMPTY
    {
      this.cfg := cfg;
      keyCounter := 0;
      keyMap := map[];
      timeKeySet := multiset{};
      keyTimeMap := map[];
      keys := map[];
      Repr := {};
    }

    method Size() returns (n: nat)
      requires Valid()
      ensures n == |State().keys|
    {
      n := |keyMap|;
      assert |keys.Keys| == |keyMap.Keys|;
    }

    method GetId(name: string) returns (id: Option<nat>)
      requires Valid()
      ensures id == IdOf(State(), name)
    {
      assert name in keyMap ==> Links(name);
      id := if name in keyMap then Some(keyMap[name].keyInfo.id) else None;
    }

    /** `now` is the time to record; 0 stands for the clock. */
    method UpdateTime_(name: string, now: int, clock: int)
      requires Mirrors(timeKeySet, keyTimeMap)
      modifies this`timeKeySet, this`keyTimeMap
      ensures old(Linked()) ==> Linked()
      ensures Mirrors(timeKeySet, keyTimeMap)
      ensures keyTimeMap == UpdateTime(cfg, old(keyTimeMap), name, if now == 0 then clock else now)
    {
      if cfg.gcInterval == 0 {
        return;
      }
      var t := if now == 0 then clock else now;
      if name in keyTimeMap {
        if keyTimeMap[name] > t - cfg.gcInterval {
          return;
        }
        MirrorRemove(timeKeySet, keyTimeMap, name);
        timeKeySet := timeKeySet[(keyTimeMap[name], name) := 0];
        keyTimeMap := keyTimeMap - {name};
      }
      MirrorInsert(timeKeySet, keyTimeMap, name, t);
      Reinsert(old(keyTimeMap), name, t);
      keyTimeMap := keyTimeMap[name := t];
      timeKeySet := timeKeySet + multiset{(t, name)};
    }

    /** Puts a new aggregator under a new name. */
    method Insert(name: string, a: KeyAggregator)
      requires Linked() && name !in keyMap && a !in Repr && a.cfg == cfg && a.name == name
      modifies this`keyMap, this`keys, this`Repr
      ensures Linked() && Repr == old(Repr) + {a}
      ensures keyMap == old(keyMap)[name := a] && keys == old(keys)[name := a.Value()]
    {
      keyMap := keyMap[name := a];
      keys := keys[name := a.Value()];
      Repr := Repr + {a};
      forall n | n in keyMap ensures Links(n) {
        assert n != name ==> old(n in keyMap && Links(n));
      }
    }

    /** `std::map::insert`: an existing entry stays. */
    method InsertNew(name: string, a: KeyAggregator) returns (inserted: bool)
      requires Linked() && a !in Repr && a.cfg == cfg && a.name == name
      modifies this`keyMap, this`keys, this`Repr
      ensures Linked() && Repr <= old(Repr) + {a}
      ensures inserted == (name !in old(keys))
      ensures keys == if inserted then old(keys)[name := a.Value()] else old(keys)
    {
      inserted := name !in keyMap;
      if inserted {
        Insert(name, a);
      }
    }

    /** After a call on the aggregator of `name`: takes its value over. */
    ghost method Follow(name: string, a: KeyAggregator, before: map<string, Aggregator>)
      requires name in keyMap && keyMap[name] == a && a in Repr
      requires keys == before && keys.Keys == keyMap.Keys && this !in Repr
      requires forall n :: n in keyMap ==> keyMap[n] in Repr && keyMap[n].cfg == cfg && keyMap[n].name == n
      requires forall n :: n in keyMap && n != name ==> Same(keys[n], keyMap[n].Value())
      modifies this`keys
      ensures Linked() && keys == before[name := a.Value()]
    {
      keys := keys[name := a.Value()];
      assert forall n :: n in keyMap ==> Links(n);
    }

    /** The aggregator of a name, made with the next id when there is none. */
    method FindOrMake(name: string, ts: int) returns (a: KeyAggregator)
      requires Linked()
      modifies this`keyCounter, this`keyMap, this`keys, this`Repr
      ensures Linked() && fresh(Repr - old(Repr))
      ensures name in keyMap && keyMap[name] == a && a in Repr && Links(name)
      ensures keys == old(keys)[name := Touched(cfg, old(State()), name, ts)]
      ensures keyCounter == if name in old(keys) then old(keyCounter) else old(keyCounter) + 1
    {
      if name !in keyMap {
        keyCounter := keyCounter + 1;
        a := new KeyAggregator(cfg, name, keyCounter, ts);
        Insert(name, a);
      } else {
        a := keyMap[name];
      }
      assert Links(name);
    }

    method GetOrCreate(name: string, ts: int, clock: int) returns (a: KeyAggregator)
      requires Valid()
      modifies this
      ensures Valid() && fresh(Repr - old(Repr))
      ensures State() == Touch(cfg, old(State()), name, ts, clock)
      ensures name in keyMap && keyMap[name] == a && a in Repr && Links(name)
    {
      TouchKeepsIndexes(cfg, State(), name, ts, clock);
      a := FindOrMake(name, ts);
      UpdateTime_(name, 0, clock);
      TouchedState(cfg, old(State()), State(), name, ts, clock);
    }

    method Create(name: string, ts: int, clock: int) returns (id: nat)
      requires Valid()
      modifies this
      ensures Valid() && fresh(Repr - old(Repr))
      ensures State() == Touch(cfg, old(State()), name, ts, clock)
      ensures Some(id) == IdOf(State(), name)
    {
      var a := GetOrCreate(name, ts, clock);
      id := a.keyInfo.id;
    }

    /** Adds a point; `upKey` is set when the point went through the aggregator. */
    method Add(name: string, data: Sample, clock: int, push: Sample -> PushOutcome)
      returns (id: nat, upKey: Option<StoredKey>, upData: seq<Info>, isLast: bool)
      requires Valid()
      requires Pushes(cfg.lib, Touched(cfg, State(), name, data.info.ts), data, push)
      modifies this, Repr
      ensures Valid() && fresh(Repr - old(Repr))
      ensures State() == AddPoint(cfg, old(State()), name, data, clock, push)
      ensures var a := Touched(cfg, old(State()), name, data.info.ts);
              isLast == !IsLate(a, data) && upData == AddData(cfg, a, data, push)
      ensures Some(id) == IdOf(State(), name)
      ensures upKey == if isLast then Some(State().keys[name].key) else None
    {
      var a := GetOrCreate(name, data.info.ts, clock);
      assert a.Value() == Touched(cfg, old(State()), name, data.info.ts);
      assert forall n :: n in keyMap ==> Links(n);
      upData, isLast := a.Add(data, push);
      id := a.keyInfo.id;
      upKey := if isLast then Some(a.keyInfo) else None;
      Follow(name, a, keys);
    }

    method Merge(name: string, data: seq<Info>, clock: int)
      returns (id: Option<nat>, upKey: Option<StoredKey>, upData: seq<Info>)
      requires Valid()
      modifies this, Repr
      ensures Valid() && fresh(Repr - old(Repr))
      ensures data == [] ==> State() == old(State()) && id == None && upKey == None && upData == []
      ensures data != [] ==>
                && State() == MergePoints(cfg, old(State()), name, data, clock)
                && id == IdOf(State(), name)
                && upKey == Some(State().keys[name].key)
                && upData == Coalesce(cfg.lib, Aligned(cfg.lib, data))
    {
      if data == [] {
        return None, None, [];
      }
      var a := GetOrCreate(name, data[|data| - 1].ts, clock);
      assert forall n :: n in keyMap ==> Links(n);
      upData := a.Merge(data);
      id, upKey := Some(a.keyInfo.id), Some(a.keyInfo);
      Follow(name, a, keys);
    }

    method Place(name: string, a: KeyAggregator, now: int) returns (inserted: bool)
      requires Linked() && Mirrors(timeKeySet, keyTimeMap)
      requires a !in Repr && a.cfg == cfg && a.name == name && now != 0
      modifies this`keyMap, this`keys, this`Repr, this`timeKeySet, this`keyTimeMap
      ensures Linked() && Mirrors(timeKeySet, keyTimeMap) && Repr <= old(Repr) + {a}
      ensures inserted == (name !in old(keys))
      ensures keys == if inserted then old(keys)[name := a.Value()] else old(keys)
      ensures keyTimeMap == UpdateTime(cfg, old(keyTimeMap), name, now)
    {
      UpdateTime_(name, now, 0);
      inserted := InsertNew(name, a);
    }

    method Restored(info: StoredName) returns (a: KeyAggregator)
      ensures fresh(a) && a.cfg == cfg && a.name == info.name
      ensures a.Value() == CacheSpec.Restored(cfg, info.key)
    {
      a := new KeyAggregator(cfg, info.name, info.key.id, info.key.values.lastUpdate);
      a.RestoreKeyInfo(info.key.values);
    }

    /** `init` without the counter. */
    method InitEntry(info: StoredName) returns (inserted: bool)
      requires Linked() && Mirrors(timeKeySet, keyTimeMap)
      modifies this`keyMap, this`keys, this`Repr, this`timeKeySet, this`keyTimeMap
      ensures Linked() && Mirrors(timeKeySet, keyTimeMap) && fresh(Repr - old(Repr))
      ensures inserted == (info.name !in old(keys))
      ensures keys == if inserted then old(keys)[info.name := CacheSpec.Restored(cfg, info.key)] else old(keys)
      ensures keyTimeMap == UpdateTime(cfg, old(keyTimeMap), info.name, InitTime(cfg, info))
    {
      var a := Restored(info);
      var upd := TruncDiv(info.key.values.lastUpdate, cfg.resolution);
      inserted := Place(info.name, a, if upd != 0 then upd else 1);
    }

    /** Takes over a stored record; an already cached name keeps its aggregator. */
    method Init(info: StoredName) returns (inserted: bool)
      requires Valid()
      modifies this
      ensures Valid() && fresh(Repr - old(Repr))
      ensures State() == CacheSpec.Init(cfg, old(State()), info)
      ensures inserted == (info.name !in old(State()).keys)
    {
      InitKeepsIndexes(cfg, State(), info);
      if keyCounter < info.key.id {
        keyCounter := info.key.id;
      }
      inserted := InitEntry(info);
    }

    /** Takes the names out of the key map. */
    method Erase(names: set<string>)
      requires Linked()
      modifies this`keyMap, this`keys
      ensures Linked() && keyMap == old(keyMap) - names && keys == old(keys) - names
    {
      keyMap := keyMap - names;
      keys := keys - names;
      forall n | n in keyMap ensures Links(n) {
        assert old(n in keyMap && Links(n));
      }
    }

    method Del(name: string) returns (id: Option<nat>)
      requires Valid()
      modifies this
      ensures Valid() && Repr == old(Repr)
      ensures State() == Delete(old(State()), name)
      ensures id == IdOf(old(State()), name)
    {
      if name !in keyMap {
        return None;
      }
      assert Links(name);
      id := Some(keyMap[name].keyInfo.id);
      EraseName(name);
      var consistent := CheckSizes();
      assert consistent;
    }

    /** Takes a name out of all indexes. */
    method EraseName(name: string)
      requires Valid() && name in keys
      modifies this`keyMap, this`keys, this`keyTimeMap, this`timeKeySet
      ensures Valid() && State() == Delete(old(State()), name)
    {
      DeleteKeepsIndexes(cfg, State(), name);
      Erase({name});
      if cfg.gcInterval != 0 {
        EraseTime(name);
      }
    }

    /** Takes a name out of both time indexes. */
    method EraseTime(name: string)
      requires Mirrors(timeKeySet, keyTimeMap) && name in keyTimeMap
      modifies this`timeKeySet, this`keyTimeMap
      ensures Mirrors(timeKeySet, keyTimeMap)
      ensures keyTimeMap == old(keyTimeMap) - {name}
      ensures timeKeySet == old(timeKeySet) - multiset{(old(keyTimeMap)[name], name)}
    {
      MirrorRemove(timeKeySet, keyTimeMap, name);
      timeKeySet := timeKeySet[(keyTimeMap[name], name) := 0];
      keyTimeMap := keyTimeMap - {name};
    }

    lemma SizesAgree()
      requires Valid() && cfg.gcInterval != 0
      ensures |keyTimeMap| == |timeKeySet| && |keyTimeMap| == |keyMap|
    {
      MirroredSize(timeKeySet, keyTimeMap);
      assert |keyTimeMap| == |keyTimeMap.Keys| && |keyMap| == |keyMap.Keys|;
    }

    /** The size check after a deletion or a collection: it always passes, so the FATAL branch
        that would follow is dead. */
    method CheckSizes() returns (consistent: bool)
      requires Valid()
      ensures consistent
    {
      consistent := cfg.gcInterval == 0 || (|keyTimeMap| == |timeKeySet| && |keyTimeMap| == |keyMap|);
      if cfg.gcInterval != 0 {
        SizesAgree();
      }
    }

    method Gc(clock: int) returns (count: nat)
      requires Valid()
      modifies this
      ensures Valid() && Repr == old(Repr)
      ensures State() == Collect(cfg, old(State()), clock)
      ensures count == |Removed(cfg, old(State()), clock)|
    {
      if cfg.gcInterval == 0 || timeKeySet == multiset{} {
        EmptyMirror(timeKeySet, keyTimeMap);
        NothingToCollect(cfg, State(), clock);
        return 0;
      }
      count := GcEntries(clock);
    }

    /** `gc` once there are entries; `order` is the order of the time index. */
    method GcEntries(clock: int) returns (count: nat)
      requires Valid() && cfg.gcInterval != 0 && timeKeySet != multiset{}
      modifies this`keyMap, this`keys, this`keyTimeMap, this`timeKeySet
      ensures Valid() && State() == Collect(cfg, old(State()), clock)
      ensures count == |Removed(cfg, old(State()), clock)|
    {
      var death := clock - cfg.ttl;
      var order := TimeOrder(timeKeySet);
      assert order != [] by { FirstEntry(timeKeySet); }
      if order[0].0 > death {
        SweptIsExpired(order, timeKeySet, keyTimeMap, death, 0);
        NothingExpired(cfg, State(), clock);
        return 0;
      }
      CollectKeepsIndexes(cfg, State(), clock);
      count := Sweep(order, death);
      SweptIsCollected(cfg, old(State()), State(), clock);
      var consistent := CheckSizes();
      assert consistent;
    }

    /** Erases one entry of the time index and its name. */
    method EraseEntry(beg: TimeName)
      requires Linked() && Mirrors(timeKeySet, keyTimeMap) && timeKeySet[beg] > 0
      modifies this`keyMap, this`keys, this`keyTimeMap, this`timeKeySet
      ensures Linked() && Mirrors(timeKeySet, keyTimeMap)
      ensures keys == old(keys) - {beg.1}
      ensures keyTimeMap == old(keyTimeMap) - {beg.1}
      ensures timeKeySet == old(timeKeySet) - multiset{beg}
    {
      MirrorRemove(timeKeySet, keyTimeMap, beg.1);
      Erase({beg.1});
      keyTimeMap := keyTimeMap - {beg.1};
      timeKeySet := timeKeySet - multiset{beg};
    }

    /** The loop of `gc`: erases the names recorded before `death` from all indexes. */
    method Sweep(order: seq<TimeName>, death: int) returns (count: nat)
      requires Linked() && Mirrors(timeKeySet, keyTimeMap) && keyTimeMap.Keys == keys.Keys
      requires order == TimeOrder(timeKeySet)
      modifies this`keyMap, this`keys, this`keyTimeMap, this`timeKeySet
      ensures Linked() && Mirrors(timeKeySet, keyTimeMap)
      ensures keyTimeMap == old(keyTimeMap) - Expired(old(keyTimeMap), death)
      ensures keys == old(keys) - Expired(old(keyTimeMap), death)
      ensures count == |Expired(old(keyTimeMap), death)|
    {
      SweepStart(timeKeySet);
      count := SweepEntries(order, death);
      SweptIsExpired(order, old(timeKeySet), old(keyTimeMap), death, count);
    }

    method SweepEntries(order: seq<TimeName>, death: int) returns (count: nat)
      requires Swept(order, 0, keys, keyTimeMap)
      modifies this`keyMap, this`keys, this`keyTimeMap, this`timeKeySet
      ensures count <= |order| && Swept(order, count, old(keys), old(keyTimeMap))
      ensures forall i :: 0 <= i < count ==> order[i].0 < death
      ensures count < |order| ==> order[count].0 >= death
    {
      count := 0;
      while count < |order| && order[count].0 < death  // up to lower_bound: LowerBoundOfDeath
        invariant count <= |order|
        invariant forall i :: 0 <= i < count ==> order[i].0 < death
        invariant Swept(order, count, old(keys), old(keyTimeMap))
      {
        EraseNext(order, count, old(keys), old(keyTimeMap));
        count := count + 1;
      }
    }

    /** The first `count` entries are gone from all indexes, and nothing else is. */
    ghost predicate Swept(order: seq<TimeName>, count: nat, keysWere: map<string, Aggregator>, timesWere: map<string, int>)
      requires count <= |order|
      reads this, Repr
    {
      && Linked() && Mirrors(timeKeySet, keyTimeMap) && Sweeping(timeKeySet, order, count)
      && keyTimeMap == timesWere - NamesUpTo(order, count)
      && keys == keysWere - NamesUpTo(order, count)
    }

    method EraseNext(order: seq<TimeName>, count: nat, ghost keysWere: map<string, Aggregator>, ghost timesWere: map<string, int>)
      requires count < |order| && Swept(order, count, keysWere, timesWere)
      modifies this`keyMap, this`keys, this`keyTimeMap, this`timeKeySet
      ensures Swept(order, count + 1, keysWere, timesWere)
    {
      SweepStep(timeKeySet, order, count);
      RemoveBoth(timesWere, NamesUpTo(order, count), order[count].1);
      RemoveBoth(keysWere, NamesUpTo(order, count), order[count].1);
      EraseEntry(order[count]);
    }

    /** Hands over every record, in order of the names, and the last point popped after it. */
    method Release(pop: string -> Option<Info>) returns (stored: seq<StoredInfo>)
      requires Valid()
      modifies this`keys, Repr
      ensures Valid() && Repr == old(Repr)
      ensures stored == Released(cfg, old(State()), pop)
      ensures State() == Popped(cfg, old(State()), pop)
    {
      var names := OrderedNames(keyMap.Keys);
      stored := ReleaseAll(names, pop);
      AllPopped(cfg, old(State()), pop, names);
    }

    /** The loop of `release`. */
    method ReleaseAll(names: seq<string>, pop: string -> Option<Info>) returns (stored: seq<StoredInfo>)
      requires Linked()
      requires forall i :: 0 <= i < |names| ==> names[i] in keyMap
      requires forall i, j :: 0 <= i < j < |names| ==> names[i] != names[j]
      modifies this`keys, Repr
      ensures Linked()
      ensures stored == ReleasedUpTo(cfg, old(State()), pop, names, |names|)
      ensures State() == PoppedUpTo(cfg, old(State()), pop, names, |names|)
    {
      stored := [];
      ghost var was := State();
      for i := 0 to |names|
        modifies this`keys, Repr
        invariant Linked()
        invariant State() == PoppedUpTo(cfg, was, pop, names, i)
        invariant stored == ReleasedUpTo(cfg, was, pop, names, i)
      {
        var name := names[i];
        NotYetPopped(cfg, was, pop, names, i);
        var s := ReleaseOne(name, pop(name));
        stored := stored + [s];
      }
    }

    method ReleaseOne(name: string, last: Option<Info>) returns (s: StoredInfo)
      requires Linked() && name in keyMap
      modifies Repr, this`keys
      ensures Linked()
      ensures Same(s, StoredInfo(StoredName(name, old(keys)[name].key), LastPoint(cfg, last)))
      ensures keys == old(keys)[name := Receive(old(keys)[name], LastPoint(cfg, last), old(keys)[name].current)]
    {
      assert forall n :: n in keyMap ==> Links(n);
      var a := keyMap[name];
      var key := a.keyInfo;
      var points := a.AggregateLastPoint(last);
      s := StoredInfo(StoredName(name, key), points);
      Follow(name, a, keys);
    }

    // ----- reading

    method SelectNames(prefix: string, suffix: string, offset: nat, limit: nat) returns (result: seq<NameValue>)
      requires Valid()
      ensures result == WithZero(Page(Matching(State().keys.Keys, prefix, suffix), offset, limit))
      ensures var names := Matching(State().keys.Keys, prefix, suffix);
              IsWindow(names, offset, if limit == 0 then |names| else limit, NamesOf(result))
    {
      PageIs(Matching(State().keys.Keys, prefix, suffix), offset, limit);
      result := Scan(keyMap.Keys, prefix, suffix, offset, limit);
    }

    /** The values the selected names are ranked by. */
    ghost function Infos(names: seq<string>, power: bool): (m: map<string, Info>)
      reads this`keys
      requires forall i :: 0 <= i < |names| ==> names[i] in keys
      ensures forall n :: n in m <==> n in names
    {
      map n | n in names :: KeyInfo(keys[n].key.values, power)
    }

    /** The values a sort shows: of every name the chosen field of its record. */
    ghost function Shown(names: seq<string>, sort: SortBy, power: bool): map<string, int>
      reads this`keys
      requires sort != NOSORT && forall i :: 0 <= i < |names| ==> names[i] in keys
    {
      map n | n in names :: Pair(keys[n].key.values, FieldOf(sort, power)).value
    }

    lemma ShownValues(names: seq<string>, sort: SortBy, power: bool)
      requires sort != NOSORT && forall i :: 0 <= i < |names| ==> names[i] in keys
      ensures ValuesOf(sort, Infos(names, power)) == Shown(names, sort, power)
    {
      forall n | n in names ensures ByValue(sort, Infos(names, power)[n]) == Shown(names, sort, power)[n] {
        ByValueIsField(sort, keys[n].key.values, power);
      }
    }

    /** Attaches its values to every selected name. */
    method Collected(found: seq<NameValue>, power: bool, ghost names: seq<string>) returns (selection: seq<(string, Info)>)
      requires Linked() && found == WithZero(names)
      requires forall i :: 0 <= i < |names| ==> names[i] in keys
      ensures selection == Items(names, Infos(names, power))
    {
      selection := [];
      for i := 0 to |found|
        invariant |selection| == i
        invariant forall j :: 0 <= j < i ==> selection[j] == (names[j], KeyInfo(keys[names[j]].key.values, power))
      {
        var name := found[i].0;
        assert Links(name);
        selection := selection + [(name, KeyInfo(keyMap[name].keyInfo.values, power))];
      }
      assert forall i :: 0 <= i < |names| ==> names[i] in names;
    }

    /** `select` with a field to sort by; `ranking` is the sorted selection. */
    method Select(prefix: string, suffix: string, offset: nat, limit: nat, sort: SortBy, power: bool)
      returns (result: seq<NameValue>, ghost ranking: seq<(string, Info)>)
      requires Valid()
      ensures sort == NOSORT ==> result == WithZero(Page(Matching(State().keys.Keys, prefix, suffix), offset, limit))
      ensures sort != NOSORT ==> RankedPage(Matching(State().keys.Keys, prefix, suffix), offset, limit, sort, power, result, ranking)
      ensures sort != NOSORT ==> TruePage(Shown(Matching(State().keys.Keys, prefix, suffix), sort, power), offset, result)
      ensures |result| == PageLength(|Matching(State().keys.Keys, prefix, suffix)|, offset, limit)
    {
      ranking := [];
      if sort == NOSORT {
        result := SelectNames(prefix, suffix, offset, limit);
        return;
      }
      var found, names := FindAll(prefix, suffix);
      result, ranking := Rank(found, names, offset, limit, sort, power);
    }

    /** The part of `select` that scans for all names. */
    method FindAll(prefix: string, suffix: string) returns (found: seq<NameValue>, ghost names: seq<string>)
      requires Valid()
      ensures names == Matching(State().keys.Keys, prefix, suffix) && found == WithZero(names)
      ensures forall i :: 0 <= i < |names| ==> names[i] in keys
      ensures forall i, j :: 0 <= i < j < |names| ==> names[i] != names[j]
    {
      found := SelectNames(prefix, suffix, 0, 0);
      names := Matching(State().keys.Keys, prefix, suffix);
      assert Page(names, 0, 0) == names;
      assert forall i :: 0 <= i < |names| ==> names[i] in names;
      MatchingDistinct(State().keys.Keys, prefix, suffix);
    }

    /** The part of `select` that sorts. */
    method Rank(found: seq<NameValue>, ghost names: seq<string>, offset: nat, limit: nat, sort: SortBy, power: bool)
      returns (result: seq<NameValue>, ghost ranking: seq<(string, Info)>)
      requires Linked() && sort != NOSORT && found == WithZero(names)
      requires forall i :: 0 <= i < |names| ==> names[i] in keys
      requires forall i, j :: 0 <= i < j < |names| ==> names[i] != names[j]
      ensures RankedPage(names, offset, limit, sort, power, result, ranking)
      ensures TruePage(Shown(names, sort, power), offset, result)
      ensures |result| == PageLength(|names|, offset, limit)
    {
      var selection := Collected(found, power, names);
      ShownValues(names, sort, power);
      if |selection| < offset {
        EmptyTruePage(sort, names, Infos(names, power), offset);
        return [], [];
      }
      var sorted := SortRanked(sort, selection);
      ranking := sorted;
      PageOfRanking(sort, names, Infos(names, power), sorted, offset, limit);
      result := Named(sort, Page(sorted, offset, limit));
    }

    /** The page of a ranking of all the names, or nothing when the offset is beyond them. */
    ghost predicate RankedPage(names: seq<string>, offset: nat, limit: nat, sort: SortBy, power: bool,
                               result: seq<NameValue>, ranking: seq<(string, Info)>)
      reads this`keys
    {
      && (forall i :: 0 <= i < |names| ==> names[i] in keys)
      && if |names| < offset then result == []
         else IsRanking(sort, Items(names, Infos(names, power)), ranking) && result == Named(sort, Page(ranking, offset, limit))
    }

    /** `tree`; for leaves `list` is the selection they are cut from and `ranking` its order. */
    method ListTree(prefix: string, sep: string, depth: nat, offset: nat, limit: nat, node: TreeNode, sort: SortBy, power: bool)
      returns (result: seq<NameValue>, ghost list: seq<NameValue>, ghost ranking: seq<(string, Info)>)
      requires Valid()
      ensures depth == 0 ==> result == []
      ensures depth > 0 && node != LEAF ==>
                result == TreePage(WithZero(Names.Sorted(Components(State().keys.Keys, Head(prefix, sep), sep, node))), offset, limit)
      ensures depth > 0 && node == LEAF ==>
                && Selected(Head(prefix, sep), sort, power, list, ranking)
                && result == TreePage(Entries(list, Head(prefix, sep), sep, LEAF), offset, limit)
                && LeavesShown(result, Head(prefix, sep), sort, power)
      ensures depth > 0 && offset == 0 && limit == 0 ==>
                && multiset(NamesOf(result)) == multiset(Components(State().keys.Keys, Head(prefix, sep), sep, node))
                && forall c :: HasName(result, c) <==> InListing(State().keys.Keys, Head(prefix, sep), sep, node, c)
    {
      list, ranking := [], [];
      if depth == 0 {
        return [], [], [];
      }
      var head := if prefix == "" then "" else prefix + sep;
      var res: seq<NameValue>;
      res, list, ranking := ListAll(head, sep, depth, node, sort, power);
      ListedIff(State().keys.Keys, head, sep, node, res);
      result := CutPage(res, offset, limit);
      PageOfLeaves(res, offset, limit, head, sort, power);
    }

    /** `tree` before it cuts the page. */
    method ListAll(head: string, sep: string, depth: nat, node: TreeNode, sort: SortBy, power: bool)
      returns (res: seq<NameValue>, ghost list: seq<NameValue>, ghost ranking: seq<(string, Info)>)
      requires Valid() && depth > 0
      ensures node != LEAF ==> res == WithZero(Names.Sorted(Components(State().keys.Keys, head, sep, node)))
      ensures node == LEAF ==> Selected(head, sort, power, list, ranking) && res == Entries(list, head, sep, LEAF)
      ensures node == LEAF ==> LeavesShown(res, head, sort, power)
      ensures multiset(NamesOf(res)) == multiset(Components(State().keys.Keys, head, sep, node))
    {
      ghost var names := State().keys.Keys;
      var lst, rank := Select(head, "", 0, 0, if node == LEAF then sort else NOSORT, power);
      list, ranking := lst, rank;
      ListedNames(names, head, lst, ranking, node, sort, this, power);
      res := ListEntries(lst, head, sep, depth, node);
      if node != LEAF {
        ComponentsListed(names, head, sep, node, lst);
        res := SortUnique(res);
        SortedMultiset(Components(names, head, sep, node));
      } else {
        SelectionListsOnce(names, head, lst, ranking, sort, this, power);
        LeavesListedOnce(names, lst, head, sep);
        LeavesAreShown(names, head, lst, ranking, sort, power, sep);
      }
    }

    /** The selection of all names below a head. */
    ghost predicate Selected(head: string, sort: SortBy, power: bool, list: seq<NameValue>, ranking: seq<(string, Info)>)
      reads this`keys
    {
      var names := Matching(keys.Keys, head, "");
      if sort == NOSORT then list == WithZero(names) else RankedPage(names, 0, 0, sort, power, list, ranking)
    }

    lemma PageOfLeaves(res: seq<NameValue>, offset: nat, limit: nat, head: string, sort: SortBy, power: bool)
      ensures LeavesShown(res, head, sort, power) ==> LeavesShown(TreePage(res, offset, limit), head, sort, power)
    {
      if LeavesShown(res, head, sort, power) {
        if |res| < offset {
          assert TreePage(res, offset, limit) == [];
        } else {
          var end := offset + |TreePage(res, offset, limit)|;
          assert TreePage(res, offset, limit) == res[offset..end];
          SliceOfLeaves(res, offset, end, head, sort, power);
        }
      }
    }

    lemma SliceOfLeaves(res: seq<NameValue>, a: nat, b: nat, head: string, sort: SortBy, power: bool)
      requires a <= b <= |res| && LeavesShown(res, head, sort, power)
      ensures LeavesShown(res[a..b], head, sort, power)
    {
    }

    /** Leaves show the chosen field of their names in descending order; without a sort they show
        zero, in ascending order of the names. */
    ghost predicate LeavesShown(leaves: seq<NameValue>, head: string, sort: SortBy, power: bool)
      reads this`keys
    {
      && (sort == NOSORT ==>
            && (forall i :: 0 <= i < |leaves| ==> leaves[i].1 == 0)
            && NamesAscend(leaves, head))
      && (sort != NOSORT ==>
            && Descends(leaves)
            && forall i :: 0 <= i < |leaves| ==>
                             && head + leaves[i].0 in keys
                             && leaves[i].1 == Pair(keys[head + leaves[i].0].key.values, FieldOf(sort, power)).value)
    }

    lemma LeavesAreShown(names: set<string>, head: string, list: seq<NameValue>, ranking: seq<(string, Info)>,
                         sort: SortBy, power: bool, sep: string)
      requires sort == NOSORT ==> list == WithZero(Matching(names, head, ""))
      requires sort != NOSORT ==> RankedPage(Matching(names, head, ""), 0, 0, sort, power, list, ranking)
      ensures LeavesShown(Entries(list, head, sep, LEAF), head, sort, power)
    {
      var leaves := Entries(list, head, sep, LEAF);
      forall i | 0 <= i < |leaves| ensures exists p :: 0 <= p < |list| && list[p] == (head + leaves[i].0, leaves[i].1) {
        LeafEntriesFollow(list, head, sep, leaves[i]);
      }
      if sort == NOSORT {
        Names.SortedAscends(set n | n in names && Names.HasPrefix(n, head) && Names.HasSuffix(n, ""));
        LeafEntriesAscend(list, head, sep);
      } else {
        SelectionShows(names, head, list, ranking, sort, power);
        LeafEntriesDescend(list, head, sep);
      }
    }

    lemma SelectionShows(names: set<string>, head: string, list: seq<NameValue>, ranking: seq<(string, Info)>, sort: SortBy, power: bool)
      requires sort != NOSORT && RankedPage(Matching(names, head, ""), 0, 0, sort, power, list, ranking)
      ensures Descends(list)
      ensures forall i :: 0 <= i < |list| ==>
                            && list[i].0 in keys
                            && list[i].1 == Pair(keys[list[i].0].key.values, FieldOf(sort, power)).value
    {
      var found := Matching(names, head, "");
      ShownValues(found, sort, power);
      MatchingDistinct(names, head, "");
      PageOfRanking(sort, found, Infos(found, power), ranking, 0, 0);
    }
  }

  /** What `tree` selects begins with the head. */
  lemma ListedNames(names: set<string>, head: string, list: seq<NameValue>, ranking: seq<(string, Info)>,
                    node: TreeNode, sort: SortBy, cache: KeyCache, power: bool)
    requires node != LEAF || sort == NOSORT ==> list == WithZero(Page(Matching(names, head, ""), 0, 0))
    requires node == LEAF && sort != NOSORT ==> cache.RankedPage(Matching(names, head, ""), 0, 0, sort, power, list, ranking)
    ensures node != LEAF || sort == NOSORT ==> list == WithZero(Matching(names, head, ""))
    ensures forall i :: 0 <= i < |list| ==> Names.HasPrefix(list[i].0, head)
  {
    var found := Matching(names, head, "");
    assert Page(found, 0, 0) == found;
    assert forall i :: 0 <= i < |found| ==> found[i] in found;
    if node == LEAF && sort != NOSORT {
      var items := Items(found, cache.Infos(found, power));
      assert |multiset(ranking)| == |multiset(items)|;
      assert Page(ranking, 0, 0) == ranking;
      forall i | 0 <= i < |list| ensures Names.HasPrefix(list[i].0, head) {
        assert ranking[i] in multiset(ranking);
        assert ranking[i] in items;
      }
    }
  }

  /** And it has every name below the head, once. */
  lemma SelectionListsOnce(names: set<string>, head: string, list: seq<NameValue>, ranking: seq<(string, Info)>,
                           sort: SortBy, cache: KeyCache, power: bool)
    requires sort == NOSORT ==> list == WithZero(Matching(names, head, ""))
    requires sort != NOSORT ==> cache.RankedPage(Matching(names, head, ""), 0, 0, sort, power, list, ranking)
    ensures ListsOnce(list, names, head)
  {
    var found := Matching(names, head, "");
    MatchingDistinct(names, head, "");
    assert forall i :: 0 <= i < |found| ==> found[i] in found;
    assert forall n: string :: Names.HasSuffix(n, "");
    if sort == NOSORT {
      forall n ensures HasName(list, n) <==> n in found {
        if n in found {
          var i :| 0 <= i < |found| && found[i] == n;
          assert list[i].0 == n;
        }
      }
    } else {
      var info := cache.Infos(found, power);
      RankingElements(sort, found, info, ranking);
      RankingDistinct(found, info, ranking);
      assert Page(ranking, 0, 0) == ranking;
      forall n ensures HasName(list, n) <==> n in found {
        if n in found {
          var k :| 0 <= k < |ranking| && ranking[k] == (n, info[n]);
          assert list[k].0 == n;
        }
      }
    }
  }

  /** A whole listing has exactly the entries the names make. */
  lemma ListedIff(names: set<string>, head: string, sep: string, node: TreeNode, res: seq<NameValue>)
    requires multiset(NamesOf(res)) == multiset(Components(names, head, sep, node))
    ensures forall c :: HasName(res, c) <==> InListing(names, head, sep, node, c)
  {
    forall c ensures HasName(res, c) <==> InListing(names, head, sep, node, c) {
      ListingIff(names, head, sep, node, c);
      assert c in multiset(NamesOf(res)) <==> c in multiset(Components(names, head, sep, node));
      if i :| 0 <= i < |res| && res[i].0 == c { assert NamesOf(res)[i] == c; }
    }
  }

  /** The entries listed for the names below the head are the components below it. */
  lemma ComponentsListed(names: set<string>, head: string, sep: string, node: TreeNode, list: seq<NameValue>)
    requires list == WithZero(Matching(names, head, ""))
    ensures (set x | x in Entries(list, head, sep, node) :: x.0) == Components(names, head, sep, node)
    ensures forall i :: 0 <= i < |Entries(list, head, sep, node)| ==> Entries(list, head, sep, node)[i].1 == 0
  {
    EntriesOfNames(list, head, sep, node);
    var found := Matching(names, head, "");
    var under := set y | y in list :: y.0;
    forall n ensures n in under <==> n in names && Names.HasPrefix(n, head) {
      if n in names && Names.HasPrefix(n, head) {
        assert Names.HasSuffix(n, "");
        assert n in found;
        var i :| 0 <= i < |found| && found[i] == n;
        assert list[i] in list;
      }
      if n in under {
        var y :| y in list && y.0 == n;
        var i :| 0 <= i < |list| && list[i] == y;
        assert found[i] in found;
      }
    }
    assert Components(under, head, sep, node) == Components(names, head, sep, node);
  }

  /** The paging at the end of `tree`. */
  method CutPage(res: seq<NameValue>, offset: nat, limit: nat) returns (page: seq<NameValue>)
    ensures page == TreePage(res, offset, limit)
  {
    if offset == 0 {
      page := if limit != 0 && |res| > limit then res[..limit] else res;
    } else if |res| < offset {
      page := [];
    } else {
      var end := if |res| < offset + limit then |res| else offset + limit;
      page := res[offset..end];
    }
  }

  method OrderedNames(names: set<string>) returns (r: seq<string>)
    ensures r == Names.Sorted(names)
    ensures forall i :: 0 <= i < |r| ==> r[i] in names
    ensures forall i, j :: 0 <= i < j < |r| ==> r[i] != r[j]
  {
    r := Names.Sorted(names);
    Names.SortedDistinct(names);
    assert forall i :: 0 <= i < |r| ==> r[i] in r;
  }

  lemma FirstEntry(timeKeySet: multiset<TimeName>)
    requires timeKeySet != multiset{}
    ensures TimeOrder(timeKeySet) != []
  {
    var p :| p in timeKeySet;
    assert p in TimeOrder(timeKeySet);
  }

  lemma TouchedState(cfg: Config, c: Cache, d: Cache, name: string, ts: int, clock: int)
    requires d.keys == c.keys[name := Touched(cfg, c, name, ts)]
    requires d.times == UpdateTime(cfg, c.times, name, clock)
    requires d.counter == if name in c.keys then c.counter else c.counter + 1
    ensures Same(d, Touch(cfg, c, name, ts, clock))
  {
    assert name in c.keys ==> d.keys == c.keys;
  }

  lemma SweptIsCollected(cfg: Config, c: Cache, d: Cache, clock: int)
    requires cfg.gcInterval != 0 && d.counter == c.counter
    requires d.keys == c.keys - Expired(c.times, clock - cfg.ttl)
    requires d.times == c.times - Expired(c.times, clock - cfg.ttl)
    ensures Same(d, Collect(cfg, c, clock))
    ensures Removed(cfg, c, clock) == Expired(c.times, clock - cfg.ttl)
  {
  }

  lemma NothingExpired(cfg: Config, c: Cache, clock: int)
    requires Expired(c.times, clock - cfg.ttl) == {}
    ensures Collect(cfg, c, clock) == c && Removed(cfg, c, clock) == {}
  {
  }

  lemma RemoveBoth<V>(m: map<string, V>, gone: set<string>, n: string)
    ensures (m - gone) - {n} == m - (gone + {n})
  {
  }

  /** The iteration order of the time index. */
  function TimeOrder(timeKeySet: multiset<TimeName>): (order: seq<TimeName>)
    ensures forall p :: p in order <==> p in timeKeySet
  {
    TimeNameLessIsStrictTotal();
    Enumerate(TimeNameLess, set p | p in timeKeySet)
  }

  lemma TimeOrderAscends(timeKeySet: multiset<TimeName>)
    ensures forall i, j :: 0 <= i < j < |TimeOrder(timeKeySet)| ==>
              TimeOrder(timeKeySet)[i].0 <= TimeOrder(timeKeySet)[j].0 && TimeOrder(timeKeySet)[i] != TimeOrder(timeKeySet)[j]
  {
    TimeNameLessIsStrictTotal();
    EnumerateAscends(TimeNameLess, set p | p in timeKeySet);
    AscendingNoDuplicates(TimeNameLess, TimeOrder(timeKeySet));
    var order := TimeOrder(timeKeySet);
    forall i, j | 0 <= i < j < |order| ensures order[i].0 <= order[j].0 {
      assert TimeNameLess(order[i], order[j]);
    }
  }

  /** The pair (death, "") comes before every entry from time `death` on, and after all others. */
  lemma LowerBoundOfDeath(p: TimeName, death: int)
    ensures TimeNameLess(p, (death, "")) <==> p.0 < death
  {
  }

  lemma SweepStart(timeKeySet: multiset<TimeName>)
    ensures Sweeping(timeKeySet, TimeOrder(timeKeySet), 0)
  {
    TimeOrderAscends(timeKeySet);
    var order := TimeOrder(timeKeySet);
    assert forall i :: 0 <= i < |order| ==> order[i] in order;
  }

  /** The entries from position `i` on are still in the index. */
  ghost predicate Sweeping(timeKeySet: multiset<TimeName>, order: seq<TimeName>, i: nat) {
    && (forall j :: i <= j < |order| ==> order[j] in timeKeySet)
    && (forall j, k :: 0 <= j < k < |order| ==> order[j] != order[k])
  }

  lemma SweepStep(timeKeySet: multiset<TimeName>, order: seq<TimeName>, i: nat)
    requires Sweeping(timeKeySet, order, i) && i < |order|
    ensures timeKeySet[order[i]] > 0
    ensures Sweeping(timeKeySet - multiset{order[i]}, order, i + 1)
  {
  }

  /** The names of the first `count` entries. */
  function NamesUpTo(order: seq<TimeName>, count: nat): set<string>
    requires count <= |order|
  {
    if count == 0 then {} else NamesUpTo(order, count - 1) + {order[count - 1].1}
  }

  lemma {:induction false} NamesUpToElements(order: seq<TimeName>, count: nat)
    requires count <= |order|
    ensures forall n :: n in NamesUpTo(order, count) <==> exists i :: 0 <= i < count && order[i].1 == n
  {
    if count > 0 { NamesUpToElements(order, count - 1); }
  }

  lemma {:induction false} NamesUpToCount(order: seq<TimeName>, count: nat)
    requires count <= |order|
    requires forall i, j :: 0 <= i < j < count ==> order[i].1 != order[j].1
    ensures |NamesUpTo(order, count)| == count
  {
    if count > 0 {
      NamesUpToCount(order, count - 1);
      NamesUpToElements(order, count - 1);
    }
  }

  lemma EmptyMirror(timeKeySet: multiset<TimeName>, keyTimeMap: map<string, int>)
    requires Mirrors(timeKeySet, keyTimeMap) && (timeKeySet == multiset{} || keyTimeMap == map[])
    ensures keyTimeMap == map[] && timeKeySet == multiset{}
  {
    assert forall n :: n in keyTimeMap ==> timeKeySet[(keyTimeMap[n], n)] == 1;
    assert timeKeySet == multiset{} ==> forall n :: n in keyTimeMap ==> false;
  }

  lemma MirrorRemove(timeKeySet: multiset<TimeName>, keyTimeMap: map<string, int>, n: string)
    requires Mirrors(timeKeySet, keyTimeMap) && n in keyTimeMap
    ensures Mirrors(timeKeySet[(keyTimeMap[n], n) := 0], keyTimeMap - {n})
    ensures timeKeySet[(keyTimeMap[n], n) := 0] == timeKeySet - multiset{(keyTimeMap[n], n)}
  {
    assert timeKeySet[(keyTimeMap[n], n)] == 1;
  }

  lemma Reinsert(m: map<string, int>, n: string, t: int)
    ensures (m - {n})[n := t] == m[n := t]
  {
  }

  lemma MirrorInsert(timeKeySet: multiset<TimeName>, keyTimeMap: map<string, int>, n: string, t: int)
    requires Mirrors(timeKeySet, keyTimeMap) && n !in keyTimeMap
    ensures Mirrors(timeKeySet + multiset{(t, n)}, keyTimeMap[n := t])
  {
  }

  /** The sweep up to `lower_bound` of (death, "") takes exactly the names recorded before. */
  lemma SweptIsExpired(order: seq<TimeName>, timeKeySet: multiset<TimeName>, keyTimeMap: map<string, int>, death: int, count: nat)
    requires Mirrors(timeKeySet, keyTimeMap)
    requires order == TimeOrder(timeKeySet) && count <= |order|
    requires forall i :: 0 <= i < count ==> order[i].0 < death
    requires count < |order| ==> order[count].0 >= death
    ensures NamesUpTo(order, count) == Expired(keyTimeMap, death)
    ensures count == |Expired(keyTimeMap, death)|
  {
    TimeOrderAscends(timeKeySet);
    forall i | 0 <= i < |order| ensures order[i].1 in keyTimeMap && keyTimeMap[order[i].1] == order[i].0 {
      EntryIsRecorded(timeKeySet, keyTimeMap, i);
    }
    SweptExpired(order, keyTimeMap, death, count);
    forall n | n in Expired(keyTimeMap, death) ensures n in NamesUpTo(order, count) {
      var i := EntryOf(timeKeySet, keyTimeMap, n);
      NamesUpToHas(order, count, i);
    }
    NamesUpToCount(order, count);
  }

  lemma {:induction false} SweptExpired(order: seq<TimeName>, keyTimeMap: map<string, int>, death: int, count: nat)
    requires count <= |order|
    requires forall i :: 0 <= i < count ==>
                           order[i].1 in keyTimeMap && keyTimeMap[order[i].1] == order[i].0 && order[i].0 < death
    ensures NamesUpTo(order, count) <= Expired(keyTimeMap, death)
  {
    if count > 0 { SweptExpired(order, keyTimeMap, death, count - 1); }
  }

  lemma {:induction false} NamesUpToHas(order: seq<TimeName>, count: nat, i: nat)
    requires i < count <= |order|
    ensures order[i].1 in NamesUpTo(order, count)
  {
    if i < count - 1 { NamesUpToHas(order, count - 1, i); }
  }

  lemma EntryIsRecorded(timeKeySet: multiset<TimeName>, keyTimeMap: map<string, int>, i: nat)
    requires Mirrors(timeKeySet, keyTimeMap) && i < |TimeOrder(timeKeySet)|
    ensures var p := TimeOrder(timeKeySet)[i]; p.1 in keyTimeMap && keyTimeMap[p.1] == p.0
  {
    assert TimeOrder(timeKeySet)[i] in TimeOrder(timeKeySet);
    assert timeKeySet[TimeOrder(timeKeySet)[i]] > 0;
  }

  lemma EntryOf(timeKeySet: multiset<TimeName>, keyTimeMap: map<string, int>, n: string) returns (i: nat)
    requires Mirrors(timeKeySet, keyTimeMap) && n in keyTimeMap
    ensures i < |TimeOrder(timeKeySet)| && TimeOrder(timeKeySet)[i].1 == n
  {
    var p := (keyTimeMap[n], n);
    assert timeKeySet[p] == 1;
    assert p in TimeOrder(timeKeySet);
    i :| 0 <= i < |TimeOrder(timeKeySet)| && TimeOrder(timeKeySet)[i] == p;
  }
}
