/** The time series: `data_rocksdb`, one ordered map from (id, ts) to a point, and
    `shard_rocksdb`, which spreads the ids over several of them. */
module DataStore {
  import opened Wrappers
  import opened Order
  import opened Wrtstat

  type PointKey = (nat, int)
  type Points = map<PointKey, Info>

  /** `data_comparator::Compare`: by id, then by time. */
  predicate KeyLess(a: PointKey, b: PointKey) {
    a.0 < b.0 || (a.0 == b.0 && a.1 < b.1)
  }

  lemma KeyLessIsStrictTotal()
    ensures StrictTotal(KeyLess)
  {
  }

  function SortedKeys(ks: set<PointKey>): (r: seq<PointKey>)
    ensures forall k :: k in r <==> k in ks
    ensures forall i, j :: 0 <= i < j < |r| ==> KeyLess(r[i], r[j])
  {
    KeyLessIsStrictTotal();
    EnumerateAscends(KeyLess, ks);
    Enumerate(KeyLess, ks)
  }

  // ----- one map of points

  function Put(m: Points, id: nat, d: Info): Points { m[(id, d.ts) := d] }

  /** `merge_operator::Merge`: a missing point counts as zero. */
  function Increment(lib: Library, m: Points, id: nat, d: Info): Points {
    m[(id, d.ts) := lib.plus(if (id, d.ts) in m then m[(id, d.ts)] else ZERO, d)]
  }

  /** Without the points of `id` from time 0 on. */
  function Without(m: Points, id: nat): Points {
    map k | k in m && !(k.0 == id && 0 <= k.1) :: m[k]
  }

  function RemoveKeys(m: Points, ks: seq<PointKey>): Points {
    map k | k in m && k !in ks :: m[k]
  }

  function SeriesKeys(m: Points, id: nat, from: int): (r: seq<PointKey>)
    ensures forall k :: k in r <==> k in m && k.0 == id && from <= k.1
    ensures forall i, j :: 0 <= i < j < |r| ==> KeyLess(r[i], r[j])
  {
    SortedKeys(set k | k in m && k.0 == id && from <= k.1)
  }

  /** The points of `id` from time `from` on, in ascending time. */
  function Series(m: Points, id: nat, from: int): (s: seq<Info>)
    ensures |s| == |SeriesKeys(m, id, from)|
    ensures forall i :: 0 <= i < |s| ==> s[i] == m[SeriesKeys(m, id, from)[i]]
  {
    var ks := SeriesKeys(m, id, from);
    seq(|ks|, i requires 0 <= i < |ks| => m[ks[i]])
  }

  function Clamp(limit: nat, resultLimit: nat): nat {
    if limit == 0 || limit > resultLimit then resultLimit else limit
  }

  /** The series of an id depends on the points of that id only. */
  lemma SeriesDependsOnId(m: Points, w: Points, id: nat, from: int)
    requires forall t :: (id, t) in m <==> (id, t) in w
    requires forall t :: (id, t) in m ==> m[(id, t)] == w[(id, t)]
    ensures Series(m, id, from) == Series(w, id, from)
  {
    assert forall k: PointKey :: k.0 == id ==> k == (id, k.1);
    assert (set k | k in m && k.0 == id && from <= k.1) == (set k | k in w && k.0 == id && from <= k.1);
    assert SeriesKeys(m, id, from) == SeriesKeys(w, id, from);
    var ks := SeriesKeys(m, id, from);
    forall i | 0 <= i < |ks| ensures m[ks[i]] == w[ks[i]] {
      assert ks[i] in ks;
      assert ks[i] == (id, ks[i].1);
    }
  }

  /** `m` and `w` hold the same points for every id but `id`. */
  ghost predicate SameElsewhere(m: Points, w: Points, id: nat) {
    forall k: PointKey {:trigger k in m} {:trigger k in w} :: k.0 != id ==> (k in m <==> k in w) && (k in m ==> m[k] == w[k])
  }

  /** Writes to one id leave every other series alone. */
  lemma WritesStayInSeries(lib: Library, m: Points, id: nat, d: Info, other: nat, from: int)
    requires other != id
    ensures Series(Put(m, id, d), other, from) == Series(m, other, from)
    ensures Series(Increment(lib, m, id, d), other, from) == Series(m, other, from)
    ensures Series(Without(m, id), other, from) == Series(m, other, from)
  {
    SeriesDependsOnId(Put(m, id, d), m, other, from);
    SeriesDependsOnId(Increment(lib, m, id, d), m, other, from);
    SeriesDependsOnId(Without(m, id), m, other, from);
  }

  lemma NoSeries(m: Points, id: nat, from: int)
    requires forall k: PointKey :: k in m && k.0 == id ==> k.1 < from
    ensures Series(m, id, from) == []
  {
    var ks := SeriesKeys(m, id, from);
    HasElement(ks);
  }

  lemma HasElement(s: seq<PointKey>)
    ensures s != [] ==> exists k :: k in s
  {
    if s != [] { assert s[0] in s; }
  }

  /** The scan starts at the first key not below (id, 0), so deleting an id empties its series
      exactly when the id had no point before time 0. */
  lemma DeleteEmptiesIff(m: Points, id: nat)
    ensures (forall from :: Series(Without(m, id), id, from) == []) <==>
            (forall t :: t < 0 ==> (id, t) !in m)
  {
    var w := Without(m, id);
    if forall from :: Series(w, id, from) == [] {
      forall t | t < 0 ensures (id, t) !in m {
        assert Series(w, id, t) == [];
        var ks := set k | k in w && k.0 == id && t <= k.1;
        assert |ks| == 0;
        assert (id, t) in m ==> (id, t) in ks;
      }
    }
    if forall t :: t < 0 ==> (id, t) !in m {
      forall from ensures Series(w, id, from) == [] {
        assert forall k: PointKey :: k in w && k.0 == id ==> (id, k.1) in m && k.1 < 0;
        NoSeries(w, id, from);
      }
    }
  }

  /** So a point before time 0 stays. */
  lemma DelCanLeavePoints() returns (m: Points, id: nat, from: int)
    ensures Series(Without(m, id), id, from) != []
  {
    id, from := 1, -1;
    m := map[(id, from) := ZERO.(ts := from)];
    assert (id, from) in SeriesKeys(Without(m, id), id, from);
  }

  // ----- the iterator

  /** The keys of the store from the one sought on, as far as `Next` can go: first the series,
      in one block, then a key of another id. */
  ghost predicate StartsWithSeries(m: Points, id: nat, from: int, keys: seq<PointKey>) {
    var n := |SeriesKeys(m, id, from)|;
    && n <= |keys|
    && keys[..n] == SeriesKeys(m, id, from)
    && (n < |keys| ==> keys[n].0 != id)
  }

  /** `NewIterator` and `Seek` to (id, from). */
  method Seek(m: Points, id: nat, from: int) returns (keys: seq<PointKey>)
    ensures StartsWithSeries(m, id, from, keys)
  {
    var all := SortedKeys(m.Keys);
    var lo := 0;
    while lo < |all| && KeyLess(all[lo], (id, from))
      invariant lo <= |all|
      invariant forall i :: 0 <= i < lo ==> KeyLess(all[i], (id, from))
    {
      lo := lo + 1;
    }
    keys := all[lo..];
    SeekKeepsSeries(m, id, from, all, lo);
    SeriesComesFirst(m, id, from, keys);
  }

  /** The keys skipped by the seek are not in the series; those kept are not below the start. */
  lemma SeekKeepsSeries(m: Points, id: nat, from: int, all: seq<PointKey>, lo: nat)
    requires forall k :: k in all <==> k in m.Keys
    requires forall i, j :: 0 <= i < j < |all| ==> KeyLess(all[i], all[j])
    requires lo <= |all| && (lo < |all| ==> !KeyLess(all[lo], (id, from)))
    requires forall i :: 0 <= i < lo ==> KeyLess(all[i], (id, from))
    ensures forall k :: k in SeriesKeys(m, id, from) ==> k in all[lo..]
    ensures forall k :: k in all[lo..] ==> k in m && !KeyLess(k, (id, from))
    ensures forall i, j :: 0 <= i < j < |all[lo..]| ==> KeyLess(all[lo..][i], all[lo..][j])
  {
    forall k | k in SeriesKeys(m, id, from) ensures k in all[lo..] {
      assert k in all;
      var i :| 0 <= i < |all| && all[i] == k;
      assert all[lo..][i - lo] == k;
    }
    forall k | k in all[lo..] ensures k in m && !KeyLess(k, (id, from)) {
      var i :| 0 <= i < |all[lo..]| && all[lo..][i] == k;
      assert all[lo + i] == k && k in all;
    }
  }

  lemma SeriesComesFirst(m: Points, id: nat, from: int, keys: seq<PointKey>)
    requires forall i, j :: 0 <= i < j < |keys| ==> KeyLess(keys[i], keys[j])
    requires forall k :: k in SeriesKeys(m, id, from) ==> k in keys
    requires forall k :: k in keys ==> k in m && !KeyLess(k, (id, from))
    ensures StartsWithSeries(m, id, from, keys)
  {
    var s := SeriesKeys(m, id, from);
    forall i, j | 0 <= i < j < |keys| && keys[j] in s ensures keys[i] in s {
      assert keys[i] in keys && KeyLess(keys[i], keys[j]);
    }
    KeyLessIsStrictTotal();
    InitialSegment(KeyLess, keys, s);
    assert |s| < |keys| ==> keys[|s|] in keys;
  }

  lemma SeekedKeys(m: Points, id: nat, from: int, keys: seq<PointKey>)
    requires StartsWithSeries(m, id, from, keys)
    ensures var n := |SeriesKeys(m, id, from)|;
            && n <= |keys| && (n < |keys| ==> keys[n].0 != id)
            && (forall i :: 0 <= i < n ==> keys[i].0 == id && keys[i] in m && m[keys[i]] == Series(m, id, from)[i])
            && (forall k :: k in keys[..n] <==> k in m && k.0 == id && from <= k.1)
  {
    var ks := SeriesKeys(m, id, from);
    forall i | 0 <= i < |ks| ensures keys[i].0 == id && keys[i] in m && m[keys[i]] == Series(m, id, from)[i] {
      assert ks[i] == keys[i] && ks[i] in ks;
    }
  }

  /** What `get` returns: the points of the id from time `ts` on, in ascending time, without the
      first `offset`, as many as were asked for and no more than `resultLimit`. */
  ghost predicate IsRead(m: Points, id: nat, ts: int, offset: nat, limit: nat, resultLimit: nat, result: seq<Info>) {
    IsWindow(Series(m, id, ts), offset, if 0 < limit <= resultLimit then limit else resultLimit, result)
  }

  class DataRocksdb {
    const lib: Library
    const resultLimit: nat
    ghost const shard: nat  // its place among the shards
    var points: Points

    constructor (lib: Library, resultLimit: nat, ghost shard: nat)
      ensures this.lib == lib && this.resultLimit == resultLimit && this.shard == shard && points == map[]
    {
      this.lib := lib;
      this.shard := shard;
      this.resultLimit := resultLimit;
      points := map[];
    }

    method Set(id: nat, data: Info)
      modifies this
      ensures points == Put(old(points), id, data)
    {
      points := points[(id, data.ts) := data];
    }

    method Inc(id: nat, data: Info)
      modifies this
      ensures points == Increment(lib, old(points), id, data)
    {
      var existing := if (id, data.ts) in points then points[(id, data.ts)] else ZERO;
      points := points[(id, data.ts) := lib.plus(existing, data)];
    }

    method Get(id: nat, ts: int, offset: nat, limit: nat) returns (result: seq<Info>)
      ensures result == Window(Series(points, id, ts), offset, Clamp(limit, resultLimit))
      ensures IsRead(points, id, ts, offset, limit, resultLimit, result)
    {
      var left, skip := limit, offset;
      if left == 0 || left > resultLimit {
        left := resultLimit;
      }
      var keys := Seek(points, id, ts);
      SeekedKeys(points, id, ts, keys);
      WindowIs(Series(points, id, ts), offset, left);
      result := Scan(keys, id, Series(points, id, ts), skip, left);
      // the result never exceeds the limit, so the final trimming of the source has no effect
      assert |result| <= resultLimit;
    }

    /** The loop of `get`: the keys begin with those of the points `s`, then comes another id. */
    method Scan(keys: seq<PointKey>, id: nat, ghost s: seq<Info>, offset: nat, limit: nat) returns (result: seq<Info>)
      requires |s| <= |keys| && (|s| < |keys| ==> keys[|s|].0 != id)
      requires forall i :: 0 <= i < |s| ==> keys[i].0 == id && keys[i] in points && points[keys[i]] == s[i]
      ensures result == Window(s, offset, limit)
    {
      var skip, left := offset, limit;
      result := [];
      var i := 0;
      while i < |keys|
        invariant i <= |s|
        invariant skip == if i < offset then offset - i else 0
        invariant i <= offset ==> result == []
        invariant i > offset ==> result == s[offset..i] && left > 0
        invariant left == limit - |result|
        decreases |keys| - i
      {
        var key := keys[i];
        if key.0 != id {
          break;
        }
        if skip == 0 {
          if left != 0 {
            left := left - 1;
            result := result + [points[key]];
          }
          if left == 0 {
            break;
          }
        } else {
          skip := skip - 1;
        }
        i := i + 1;
      }
    }

    method Del(id: nat)
      modifies this
      ensures points == Without(old(points), id)
    {
      var keys := Seek(points, id, 0);  // a snapshot
      SeekedKeys(points, id, 0, keys);
      Sweep(keys, id, |SeriesKeys(points, id, 0)|);
    }

    /** The loop of `del`: deletes the first `n` keys, where another id begins. */
    method Sweep(keys: seq<PointKey>, id: nat, ghost n: nat)
      requires n <= |keys| && (n < |keys| ==> keys[n].0 != id)
      requires forall i :: 0 <= i < n ==> keys[i].0 == id
      modifies this
      ensures points == RemoveKeys(old(points), keys[..n])
    {
      var i := 0;
      while i < |keys|
        invariant i <= n
        invariant points == RemoveKeys(old(points), keys[..i])
        decreases |keys| - i
      {
        var cur := keys[i];
        if cur.0 != id {
          break;
        }
        points := RemoveKeys(points, [cur]);
        i := i + 1;
      }
    }
  }

  class ShardRocksdb {
    const lib: Library
    const resultLimit: nat
    var dbs: seq<DataRocksdb>
    ghost var points: Points  // the one map the shards stand for

    ghost predicate Valid()
      reads this, dbs
    {
      dbs != [] && (forall i :: 0 <= i < |dbs| ==> IsShard(i)) && forall id, t :: Placed(id, t)
    }

    /** Shard `i` is a database of its own and holds only ids congruent to `i`. */
    ghost predicate IsShard(i: nat)
      requires i < |dbs|
      reads this, dbs
    {
      && dbs[i].shard == i && dbs[i].lib == lib && dbs[i].resultLimit == resultLimit
      && forall k: PointKey :: k in dbs[i].points ==> k.0 % |dbs| == i
    }

    /** The one map and the shard of the id agree about a key. */
    ghost predicate Placed(id: nat, t: int)
      requires dbs != []
      reads this, dbs
    {
      var db := dbs[id % |dbs|];
      ((id, t) in points <==> (id, t) in db.points) && ((id, t) in points ==> Same(points[(id, t)], db.points[(id, t)]))
    }

    constructor (lib: Library, resultLimit: nat, hashSize: nat)
      ensures Valid() && fresh(dbs)
      ensures this.lib == lib && this.resultLimit == resultLimit
      ensures |dbs| == if hashSize == 0 then 1 else hashSize
      ensures points == map[]
    {
      this.lib := lib;
      this.resultLimit := resultLimit;
      dbs := [];
      points := map[];
      new;
      var n := if hashSize == 0 then 1 else hashSize;
      while |dbs| < n
        invariant |dbs| <= n
        invariant fresh(dbs)
        invariant forall i :: 0 <= i < |dbs| ==> dbs[i].shard == i && dbs[i].lib == lib
        invariant forall i :: 0 <= i < |dbs| ==> dbs[i].resultLimit == resultLimit && dbs[i].points == map[]
        invariant points == map[]
      {
        var db := new DataRocksdb(lib, resultLimit, |dbs|);
        dbs := dbs + [db];
      }
    }

    function GetDb(id: nat): (db: DataRocksdb)
      requires dbs != []
      reads this
      ensures db in dbs && db == dbs[id % |dbs|]
    {
      dbs[id % |dbs|]
    }

    /** The shard of an id, and what it holds of the id. */
    lemma OwnShard(id: nat)
      requires Valid()
      ensures GetDb(id).lib == lib && GetDb(id).resultLimit == resultLimit
      ensures forall i :: 0 <= i < |dbs| && i != id % |dbs| ==> dbs[i] != GetDb(id)
      ensures forall t :: ((id, t) in points <==> (id, t) in GetDb(id).points)
      ensures forall t :: (id, t) in points ==> points[(id, t)] == GetDb(id).points[(id, t)]
    {
      assert IsShard(id % |dbs|);
      forall i | 0 <= i < |dbs| && i != id % |dbs| ensures dbs[i] != GetDb(id) { assert IsShard(i); }
      forall t ensures ((id, t) in points <==> (id, t) in GetDb(id).points)
                       && ((id, t) in points ==> points[(id, t)] == GetDb(id).points[(id, t)]) {
        assert Placed(id, t);
      }
    }

    method Set(id: nat, data: Info)
      requires Valid()
      modifies this`points, dbs
      ensures Valid() && points == Put(old(points), id, data)
    {
      OwnShard(id);
      GetDb(id).Set(id, data);
      points := Put(points, id, data);
      StaysValid(id);
    }

    /** After the same change of the one map and of the shard of `id`, at keys of `id` only. */
    twostate lemma StaysValid(id: nat)
      requires old(Valid()) && dbs == old(dbs)
      requires forall i :: 0 <= i < |dbs| && i != id % |dbs| ==> dbs[i].points == old(dbs[i].points)
      requires forall t :: ((id, t) in points <==> (id, t) in dbs[id % |dbs|].points)
      requires forall t :: (id, t) in points ==> points[(id, t)] == dbs[id % |dbs|].points[(id, t)]
      requires SameElsewhere(points, old(points), id)
      requires SameElsewhere(dbs[id % |dbs|].points, old(dbs[id % |dbs|].points), id)
      ensures Valid()
    {
      forall i | 0 <= i < |dbs| ensures IsShard(i) {
        assert old(IsShard(i));
      }
      forall j, t ensures Placed(j, t) {
        assert old(Placed(j, t));
      }
    }

    method Inc(id: nat, data: Info)
      requires Valid()
      modifies this`points, dbs
      ensures Valid() && points == Increment(lib, old(points), id, data)
    {
      OwnShard(id);
      GetDb(id).Inc(id, data);
      points := Increment(lib, points, id, data);
      StaysValid(id);
    }

    method Get(id: nat, ts: int, offset: nat, limit: nat) returns (result: seq<Info>)
      requires Valid()
      ensures result == Window(Series(points, id, ts), offset, Clamp(limit, resultLimit))
      ensures IsRead(points, id, ts, offset, limit, resultLimit, result)
    {
      OwnShard(id);
      result := GetDb(id).Get(id, ts, offset, limit);
      SeriesDependsOnId(GetDb(id).points, points, id, ts);
    }

    method Del(id: nat)
      requires Valid()
      modifies this`points, dbs
      ensures Valid() && points == Without(old(points), id)
    {
      OwnShard(id);
      GetDb(id).Del(id);
      points := Without(points, id);
      StaysValid(id);
    }
  }
}
