/** Selecting names by prefix and suffix: the range scan, and the ranked selection. */
module Selection {
  import opened Order
  import opened Wrtstat
  import opened StoredKeys
  import opened KeyAggregators
  import opened Names

  type NameValue = (string, int)

  /** All names with the prefix and the suffix, in lexicographic order. */
  function Matching(names: set<string>, prefix: string, suffix: string): (r: seq<string>)
    ensures forall n :: n in r <==> n in names && HasPrefix(n, prefix) && HasSuffix(n, suffix)
  {
    Sorted(set n | n in names && HasPrefix(n, prefix) && HasSuffix(n, suffix))
  }

  /** The matching names are those that begin with the prefix and end with the suffix. */
  lemma MatchingIff(names: set<string>, prefix: string, suffix: string, n: string)
    ensures n in Matching(names, prefix, suffix) <==>
            n in names && (exists rest: string :: n == prefix + rest) && (exists rest: string :: n == rest + suffix)
  {
    if HasPrefix(n, prefix) { assert n == prefix + n[|prefix|..]; }
    if HasSuffix(n, suffix) { assert n == n[..|n| - |suffix|] + suffix; }
  }

  lemma MatchingDistinct(names: set<string>, prefix: string, suffix: string)
    ensures forall i, j :: 0 <= i < j < |Matching(names, prefix, suffix)| ==>
                             Matching(names, prefix, suffix)[i] != Matching(names, prefix, suffix)[j]
  {
    SortedDistinct(set n | n in names && HasPrefix(n, prefix) && HasSuffix(n, suffix));
  }

  function WithZero(s: seq<string>): (r: seq<NameValue>)
    ensures |r| == |s| && forall i :: 0 <= i < |s| ==> r[i] == (s[i], 0)
  {
    seq(|s|, i requires 0 <= i < |s| => (s[i], 0))
  }

  // ----- the scan

  /** The keys at positions `lo` to `hi` that have the suffix, in order. */
  function Keep(keys: seq<string>, lo: nat, hi: nat, suffix: string): seq<string>
    requires lo <= hi <= |keys|
  {
    if lo == hi then []
    else
      var rest := Keep(keys, lo, hi - 1, suffix);
      if HasSuffix(keys[hi - 1], suffix) then rest + [keys[hi - 1]] else rest
  }

  lemma {:induction false} KeepSound(keys: seq<string>, lo: nat, hi: nat, suffix: string)
    requires lo <= hi <= |keys|
    ensures forall n :: n in Keep(keys, lo, hi, suffix) ==> HasSuffix(n, suffix) && exists i :: lo <= i < hi && keys[i] == n
  {
    if lo < hi { KeepSound(keys, lo, hi - 1, suffix); }
  }

  lemma {:induction false} KeepFinds(keys: seq<string>, lo: nat, hi: nat, suffix: string, i: nat)
    requires lo <= i < hi <= |keys| && HasSuffix(keys[i], suffix)
    ensures keys[i] in Keep(keys, lo, hi, suffix)
  {
    if i < hi - 1 { KeepFinds(keys, lo, hi - 1, suffix, i); }
  }

  lemma {:induction false} KeepAscends(keys: seq<string>, lo: nat, hi: nat, suffix: string)
    requires lo <= hi <= |keys|
    requires forall i, j :: 0 <= i < j < |keys| ==> Less(keys[i], keys[j])
    ensures forall i, j :: 0 <= i < j < |Keep(keys, lo, hi, suffix)| ==>
                             Less(Keep(keys, lo, hi, suffix)[i], Keep(keys, lo, hi, suffix)[j])
  {
    if lo < hi {
      var rest := Keep(keys, lo, hi - 1, suffix);
      KeepAscends(keys, lo, hi - 1, suffix);
      KeepSound(keys, lo, hi - 1, suffix);
      forall i | 0 <= i < |rest| ensures Less(rest[i], keys[hi - 1]) {
        assert rest[i] in rest;
      }
    }
  }

  lemma {:induction false} KeepPrefix(keys: seq<string>, lo: nat, i: nat, hi: nat, suffix: string)
    requires lo <= i <= hi <= |keys|
    ensures Keep(keys, lo, i, suffix) <= Keep(keys, lo, hi, suffix)
  {
    if i < hi { KeepPrefix(keys, lo, i, hi - 1, suffix); }
  }

  /** `lower_bound`: the position of the first key not below `prefix`. */
  function LowerBound(keys: seq<string>, prefix: string): (lo: nat)
    ensures lo <= |keys|
    ensures forall i :: 0 <= i < lo ==> Less(keys[i], prefix)
    ensures lo < |keys| ==> !Less(keys[lo], prefix)
  {
    if keys == [] || !Less(keys[0], prefix) then 0
    else
      var rest := keys[1..];
      assert forall i :: 1 <= i < |keys| ==> keys[i] == rest[i - 1];
      1 + LowerBound(rest, prefix)
  }

  /** Where the scan leaves the names with the prefix. */
  function ScanEnd(keys: seq<string>, prefix: string, lo: nat): (hi: nat)
    requires lo <= |keys|
    ensures lo <= hi <= |keys|
    ensures forall i :: lo <= i < hi ==> HasPrefix(keys[i], prefix)
    ensures hi < |keys| ==> !HasPrefix(keys[hi], prefix)
    decreases |keys| - lo
  {
    if lo < |keys| && HasPrefix(keys[lo], prefix) then ScanEnd(keys, prefix, lo + 1) else lo
  }

  /** The scanned block is all the names with the prefix. */
  lemma ScanIsComplete(names: set<string>, keys: seq<string>, prefix: string, suffix: string)
    requires keys == Sorted(names)
    ensures var lo := LowerBound(keys, prefix);
            Keep(keys, lo, ScanEnd(keys, prefix, lo), suffix) == Matching(names, prefix, suffix)
  {
    var lo := LowerBound(keys, prefix);
    var hi := ScanEnd(keys, prefix, lo);
    var kept := Keep(keys, lo, hi, suffix);
    SortedAscends(names);
    forall n ensures n in kept <==> n in names && HasPrefix(n, prefix) && HasSuffix(n, suffix) {
      KeepSound(keys, lo, hi, suffix);
      if n in kept {
        var i :| lo <= i < hi && keys[i] == n;
        assert keys[i] in keys;
      }
      if n in names && HasPrefix(n, prefix) && HasSuffix(n, suffix) {
        var i := PrefixedIsInBlock(keys, prefix, lo, hi, n);
        KeepFinds(keys, lo, hi, suffix, i);
      }
    }
    KeepAscends(keys, lo, hi, suffix);
    MatchingUnique(names, prefix, suffix, kept);
  }

  lemma MatchingUnique(names: set<string>, prefix: string, suffix: string, r: seq<string>)
    requires forall n :: n in r <==> n in names && HasPrefix(n, prefix) && HasSuffix(n, suffix)
    requires forall i, j :: 0 <= i < j < |r| ==> Less(r[i], r[j])
    ensures r == Matching(names, prefix, suffix)
  {
    SortedUnique((set n | n in names && HasPrefix(n, prefix) && HasSuffix(n, suffix)), r);
  }

  lemma PrefixedIsInBlock(keys: seq<string>, prefix: string, lo: nat, hi: nat, n: string) returns (i: nat)
    requires forall i, j :: 0 <= i < j < |keys| ==> Less(keys[i], keys[j])
    requires lo <= hi <= |keys|
    requires forall i :: 0 <= i < lo ==> Less(keys[i], prefix)
    requires lo < |keys| ==> !Less(keys[lo], prefix)
    requires hi < |keys| ==> !HasPrefix(keys[hi], prefix)
    requires n in keys && HasPrefix(n, prefix)
    ensures lo <= i < hi && keys[i] == n
  {
    i :| 0 <= i < |keys| && keys[i] == n;
    PrefixNotBelow(n, prefix);
    if i >= hi {
      assert i != hi;
      assert !Less(keys[hi], prefix) by {
        if hi > lo && Less(keys[hi], prefix) {
          LessTransitive(keys[lo], keys[hi], prefix);
        }
      }
      PrefixInterval(prefix, keys[hi], keys[i]);
      assert false;
    }
  }

  lemma TailAppend(kept: seq<string>, key: string, offset: nat)
    ensures Page(kept + [key], offset, 0) == if |kept| < offset then [] else Page(kept, offset, 0) + [key]
    ensures WithZero(Page(kept, offset, 0) + [key]) == WithZero(Page(kept, offset, 0)) + [(key, 0)]
  {
  }

  lemma TailIsPage(kept: seq<string>, all: seq<string>, offset: nat, limit: nat)
    requires kept <= all
    requires limit == 0 || |kept| < offset + limit ==> kept == all
    requires limit != 0 ==> |kept| <= offset + limit
    ensures Page(kept, offset, 0) == Page(all, offset, limit)
  {
  }

  /** The loop of `select` over the keys of the map, in order. */
  method Scan(names: set<string>, prefix: string, suffix: string, offset: nat, limit: nat) returns (result: seq<NameValue>)
    ensures result == WithZero(Page(Matching(names, prefix, suffix), offset, limit))
  {
    var keys := Sorted(names);
    ScanIsComplete(names, keys, prefix, suffix);
    result := ScanFrom(keys, prefix, suffix, LowerBound(keys, prefix), offset, limit);
  }

  method ScanFrom(keys: seq<string>, prefix: string, suffix: string, lo: nat, offset: nat, limit: nat)
    returns (result: seq<NameValue>)
    requires lo <= |keys|
    ensures result == WithZero(Page(Keep(keys, lo, ScanEnd(keys, prefix, lo), suffix), offset, limit))
  {
    result := [];
    var skip := offset;
    var i := lo;
    ghost var hi := ScanEnd(keys, prefix, lo);
    ghost var all := Keep(keys, lo, hi, suffix);
    ghost var kept: seq<string> := [];
    while i < |keys|
      invariant lo <= i <= hi
      invariant kept == Keep(keys, lo, i, suffix)
      invariant skip == if |kept| < offset then offset - |kept| else 0
      invariant result == WithZero(Page(kept, offset, 0))
      invariant limit != 0 ==> |kept| < offset + limit
      decreases |keys| - i
    {
      var key := keys[i];
      if !HasPrefix(key, prefix) {
        break;
      }
      i := i + 1;
      KeepPrefix(keys, lo, i, hi, suffix);
      if HasSuffix(key, suffix) {
        TailAppend(kept, key, offset);
        kept := kept + [key];
        if skip != 0 {
          skip := skip - 1;
        } else {
          result := result + [(key, 0)];
          if limit != 0 && |result| == limit {
            TailIsPage(kept, all, offset, limit);
            return;
          }
        }
      }
    }
    TailIsPage(kept, all, offset, limit);
  }

  // ----- the ranked selection

  datatype SortBy = NOSORT | AVG | COUNT | PERC50 | PERC80 | PERC95 | PERC99 | PERC100 | MIN | MAX | LOSSY

  /** `get_by_value`, the field `create_compare` orders by. */
  function ByValue(sort: SortBy, ai: Info): int {
    match sort
    case NOSORT => 0
    case AVG => ai.avg
    case COUNT => ai.count
    case PERC50 => ai.perc.perc50
    case PERC80 => ai.perc.perc80
    case PERC95 => ai.perc.perc95
    case PERC99 => ai.perc.perc99
    case PERC100 => ai.perc.perc100
    case MIN => ai.min
    case MAX => ai.max
    case LOSSY => ai.lossy
  }

  function MeasureOf(sort: SortBy): (m: Measure)
    requires sort != NOSORT && sort != COUNT && sort != LOSSY
  {
    match sort
    case AVG => Avg
    case PERC50 => Perc50
    case PERC80 => Perc80
    case PERC95 => Perc95
    case PERC99 => Perc99
    case PERC100 => Perc100
    case MIN => Min
    case MAX => Max
  }

  /** The field of a key record that a sort shows: the peak or, for the power view, the weighed one. */
  function FieldOf(sort: SortBy, power: bool): Field
    requires sort != NOSORT
  {
    if sort == COUNT then Count else if sort == LOSSY then Lossy
    else if power then Power(MeasureOf(sort)) else Peak(MeasureOf(sort))
  }

  /** Sorting by a field shows and compares exactly that field of the record. */
  lemma ByValueIsField(sort: SortBy, v: StoredValues, power: bool)
    requires sort != NOSORT
    ensures ByValue(sort, KeyInfo(v, power)) == Pair(v, FieldOf(sort, power)).value
  {
    if sort != COUNT && sort != LOSSY { KeyInfoAt(v, power, MeasureOf(sort)); }
  }

  ghost predicate StrictWeak<T(!new)>(before: (T, T) -> bool) {
    && (forall a, b :: before(a, b) ==> !before(b, a))
    && (forall a, b, c :: !before(a, b) && !before(b, c) ==> !before(a, c))
  }

  ghost predicate InOrder<T>(before: (T, T) -> bool, s: seq<T>) {
    forall i, j :: 0 <= i < j < |s| ==> !before(s[j], s[i])
  }

  /** `std::sort`: some ordered permutation; how equal elements are placed is not promised. */
  method StdSort<T(!new)>(before: (T, T) -> bool, s: seq<T>) returns (r: seq<T>)
    requires StrictWeak(before)
    ensures multiset(r) == multiset(s)
    ensures InOrder(before, r)
  {
    r := [];
    for i := 0 to |s|
      invariant multiset(r) == multiset(s[..i])
      invariant InOrder(before, r)
    {
      var k := |r|;
      while k > 0 && before(s[i], r[k - 1])
        invariant 0 <= k <= |r|
        invariant forall j :: k <= j < |r| ==> before(s[i], r[j])
      {
        k := k - 1;
      }
      InsertInOrder(before, r, k, s[i]);
      assert r == r[..k] + r[k..];
      r := r[..k] + [s[i]] + r[k..];
      assert s[..i + 1] == s[..i] + [s[i]];
    }
    assert s[..|s|] == s;
  }

  lemma InsertInOrder<T(!new)>(before: (T, T) -> bool, r: seq<T>, k: nat, x: T)
    requires StrictWeak(before) && InOrder(before, r) && k <= |r|
    requires forall j :: k <= j < |r| ==> before(x, r[j])
    requires k > 0 ==> !before(x, r[k - 1])
    ensures InOrder(before, r[..k] + [x] + r[k..])
  {
    var w := r[..k] + [x] + r[k..];
    forall i, j | 0 <= i < j < |w| ensures !before(w[j], w[i]) {
      if j == k && i < k - 1 {
        assert !before(x, r[k - 1]) && !before(r[k - 1], r[i]);
      }
    }
  }

  /** `ranking` lists the items of `items`, each once, with the field not increasing. */
  ghost predicate IsRanking(sort: SortBy, items: seq<(string, Info)>, ranking: seq<(string, Info)>) {
    && multiset(ranking) == multiset(items)
    && forall i, j :: 0 <= i < j < |ranking| ==> ByValue(sort, ranking[i].1) >= ByValue(sort, ranking[j].1)
  }

  method SortRanked(sort: SortBy, items: seq<(string, Info)>) returns (ranking: seq<(string, Info)>)
    ensures IsRanking(sort, items, ranking)
  {
    var before := (a: (string, Info), b: (string, Info)) => ByValue(sort, a.1) > ByValue(sort, b.1);
    ranking := StdSort(before, items);
    forall i, j | 0 <= i < j < |ranking| ensures ByValue(sort, ranking[i].1) >= ByValue(sort, ranking[j].1) {
      assert !before(ranking[j], ranking[i]);
    }
  }

  function Named(sort: SortBy, items: seq<(string, Info)>): (r: seq<NameValue>)
    ensures |r| == |items|
    ensures forall i :: 0 <= i < |r| ==> r[i] == (items[i].0, ByValue(sort, items[i].1))
  {
    seq(|items|, i requires 0 <= i < |items| => (items[i].0, ByValue(sort, items[i].1)))
  }

  /** The matching names with the values they are ranked by. */
  function Items(names: seq<string>, info: map<string, Info>): (r: seq<(string, Info)>)
    requires forall n :: n in names ==> n in info
    ensures |r| == |names|
    ensures forall i :: 0 <= i < |r| ==> r[i] == (names[i], info[names[i]])
  {
    assert forall i :: 0 <= i < |names| ==> names[i] in names;
    seq(|names|, i requires 0 <= i < |names| => (names[i], info[names[i]]))
  }

  ghost predicate OnPage(page: seq<NameValue>, n: string) {
    exists i :: 0 <= i < |page| && page[i].0 == n
  }

  /** Every entry of the page shows the value of its name, and no name twice. */
  ghost predicate ShowsValues(values: map<string, int>, page: seq<NameValue>) {
    && (forall i :: 0 <= i < |page| ==> page[i].0 in values && page[i].1 == values[page[i].0])
    && (forall i, j :: 0 <= i < j < |page| ==> page[i].0 != page[j].0)
  }

  /** The names `above` are not on the page and rank no lower than it; the names that are
      neither there nor on the page rank no higher. */
  ghost predicate Separates(values: map<string, int>, page: seq<NameValue>, above: set<string>) {
    && (forall i :: 0 <= i < |page| ==> page[i].0 !in above)
    && (forall n, i :: n in above && n in values && 0 <= i < |page| ==> values[n] >= page[i].1)
    && (forall n, i :: n in values && n !in above && !OnPage(page, n) && 0 <= i < |page| ==> values[n] <= page[i].1)
  }

  ghost predicate Descends(page: seq<NameValue>) {
    forall i, j :: 0 <= i < j < |page| ==> page[i].1 >= page[j].1
  }

  /** A true page of a ranking of the names by their values: `offset` of them, if there are so
      many, rank no lower than the page, the page descends, and all the others rank no higher. */
  ghost predicate TruePage(values: map<string, int>, offset: nat, page: seq<NameValue>) {
    && ShowsValues(values, page)
    && Descends(page)
    && exists above: set<string> :: |above| == MinOf(offset, |values.Keys|) && above <= values.Keys && Separates(values, page, above)
  }

  /** The values a sort compares. */
  function ValuesOf(sort: SortBy, info: map<string, Info>): (values: map<string, int>)
    ensures values.Keys == info.Keys
    ensures forall n :: n in values ==> values[n] == ByValue(sort, info[n])
  {
    map n | n in info :: ByValue(sort, info[n])
  }

  /** A page of any ranking of all the names of `info` is a true page. */
  lemma PageOfRanking(sort: SortBy, names: seq<string>, info: map<string, Info>, ranking: seq<(string, Info)>,
                      offset: nat, limit: nat)
    requires forall n :: n in names <==> n in info
    requires forall i, j :: 0 <= i < j < |names| ==> names[i] != names[j]
    requires IsRanking(sort, Items(names, info), ranking)
    ensures |ranking| == |names|
    ensures TruePage(ValuesOf(sort, info), offset, Named(sort, Page(ranking, offset, limit)))
  {
    RankingElements(sort, names, info, ranking);
    RankingDistinct(names, info, ranking);
    CountNames(names, info);
    SliceIsTruePage(sort, info, ranking, offset, MinOf(offset, |names|), PageEnd(|names|, offset, limit));
  }

  lemma SliceIsTruePage(sort: SortBy, info: map<string, Info>, ranking: seq<(string, Info)>, offset: nat, a: nat, b: nat)
    requires a <= b <= |ranking| && a == MinOf(offset, |info.Keys|)
    requires forall i, j :: 0 <= i < j < |ranking| ==> ByValue(sort, ranking[i].1) >= ByValue(sort, ranking[j].1)
    requires forall k :: 0 <= k < |ranking| ==> ranking[k].0 in info && ranking[k].1 == info[ranking[k].0]
    requires forall n :: n in info ==> exists k :: 0 <= k < |ranking| && ranking[k] == (n, info[n])
    requires forall i, j :: 0 <= i < j < |ranking| ==> ranking[i].0 != ranking[j].0
    ensures TruePage(ValuesOf(sort, info), offset, Named(sort, ranking[a..b]))
  {
    var values, page, above := ValuesOf(sort, info), Named(sort, ranking[a..b]), TopNames(ranking, a);
    assert |above| == a && above <= values.Keys && Separates(values, page, above) by {
      TopNamesElements(ranking, a);
      TopNamesCount(ranking, a);
      RankingSeparates(sort, info, ranking, a, b, above);
    }
    assert ShowsValues(values, page) && Descends(page) by { ShownValues(sort, info, ranking, a, b); }
  }

  lemma ShownValues(sort: SortBy, info: map<string, Info>, ranking: seq<(string, Info)>, a: nat, b: nat)
    requires a <= b <= |ranking|
    requires forall k :: 0 <= k < |ranking| ==> ranking[k].0 in info && ranking[k].1 == info[ranking[k].0]
    requires forall i, j :: 0 <= i < j < |ranking| ==> ByValue(sort, ranking[i].1) >= ByValue(sort, ranking[j].1)
    requires forall i, j :: 0 <= i < j < |ranking| ==> ranking[i].0 != ranking[j].0
    ensures ShowsValues(ValuesOf(sort, info), Named(sort, ranking[a..b]))
    ensures Descends(Named(sort, ranking[a..b]))
  {
    var page := Named(sort, ranking[a..b]);
    assert forall i :: 0 <= i < |page| ==> page[i] == (ranking[a + i].0, ByValue(sort, ranking[a + i].1));
  }

  lemma {:induction false} DistinctCount(names: seq<string>)
    requires forall i, j :: 0 <= i < j < |names| ==> names[i] != names[j]
    ensures |set n | n in names| == |names|
  {
    if names != [] {
      var rest, last := names[..|names| - 1], names[|names| - 1];
      DistinctCount(rest);
      assert names == rest + [last] && last !in rest;
      assert (set n | n in names) == (set n | n in rest) + {last};
    }
  }

  lemma CountNames(names: seq<string>, info: map<string, Info>)
    requires forall n :: n in names <==> n in info
    requires forall i, j :: 0 <= i < j < |names| ==> names[i] != names[j]
    ensures |info.Keys| == |names|
  {
    DistinctCount(names);
    assert (set n | n in names) == info.Keys;
  }

  /** So is an empty page after all of them. */
  lemma EmptyTruePage(sort: SortBy, names: seq<string>, info: map<string, Info>, offset: nat)
    requires forall n :: n in names <==> n in info
    requires forall i, j :: 0 <= i < j < |names| ==> names[i] != names[j]
    requires |names| <= offset
    ensures TruePage(ValuesOf(sort, info), offset, [])
  {
    CountNames(names, info);
    assert Separates(ValuesOf(sort, info), [], info.Keys);
  }

  lemma RankingElements(sort: SortBy, names: seq<string>, info: map<string, Info>, ranking: seq<(string, Info)>)
    requires forall n :: n in names <==> n in info
    requires IsRanking(sort, Items(names, info), ranking)
    ensures |ranking| == |names|
    ensures forall k :: 0 <= k < |ranking| ==> ranking[k].0 in info && ranking[k].1 == info[ranking[k].0]
    ensures forall n :: n in info ==> exists k :: 0 <= k < |ranking| && ranking[k] == (n, info[n])
  {
    var items := Items(names, info);
    assert |multiset(ranking)| == |multiset(items)|;
    forall k | 0 <= k < |ranking| ensures ranking[k].0 in info && ranking[k].1 == info[ranking[k].0] {
      assert ranking[k] in multiset(ranking);
      assert ranking[k] in items;
    }
    forall n | n in info ensures exists k :: 0 <= k < |ranking| && ranking[k] == (n, info[n]) {
      var p :| 0 <= p < |names| && names[p] == n;
      assert items[p] in multiset(items);
      assert (n, info[n]) in ranking;
    }
  }

  lemma RankingSeparates(sort: SortBy, info: map<string, Info>, ranking: seq<(string, Info)>, a: nat, b: nat, above: set<string>)
    requires a <= b <= |ranking|
    requires forall i, j :: 0 <= i < j < |ranking| ==> ByValue(sort, ranking[i].1) >= ByValue(sort, ranking[j].1)
    requires forall k :: 0 <= k < |ranking| ==> ranking[k].0 in info && ranking[k].1 == info[ranking[k].0]
    requires forall n :: n in info ==> exists k :: 0 <= k < |ranking| && ranking[k] == (n, info[n])
    requires forall n :: n in above <==> exists k :: 0 <= k < a && ranking[k].0 == n
    requires forall i, j :: 0 <= i < j < |ranking| ==> ranking[i].0 != ranking[j].0
    ensures Separates(ValuesOf(sort, info), Named(sort, ranking[a..b]), above)
  {
    var page := Named(sort, ranking[a..b]);
    assert forall i :: 0 <= i < |page| ==> page[i] == (ranking[a + i].0, ByValue(sort, ranking[a + i].1));
    forall n, i | n in above && n in info && 0 <= i < |page| ensures ByValue(sort, info[n]) >= page[i].1 {
      var k :| 0 <= k < a && ranking[k].0 == n;
      assert ByValue(sort, ranking[k].1) >= ByValue(sort, ranking[a + i].1);
    }
    forall n, i | n in info && n !in above && !OnPage(page, n) && 0 <= i < |page|
      ensures ByValue(sort, info[n]) <= page[i].1
    {
      var k :| 0 <= k < |ranking| && ranking[k] == (n, info[n]);
      assert 0 <= k - a < |page| ==> page[k - a].0 == n;
      assert ranking[k].0 == n;
      assert k >= a;
      assert ByValue(sort, ranking[a + i].1) >= ByValue(sort, ranking[k].1);
    }
  }

  /** The names of the first `a` items. */
  function TopNames(ranking: seq<(string, Info)>, a: nat): set<string>
    requires a <= |ranking|
  {
    if a == 0 then {} else TopNames(ranking, a - 1) + {ranking[a - 1].0}
  }

  lemma {:induction false} TopNamesElements(ranking: seq<(string, Info)>, a: nat)
    requires a <= |ranking|
    ensures forall n :: n in TopNames(ranking, a) <==> exists k :: 0 <= k < a && ranking[k].0 == n
  {
    if a > 0 { TopNamesElements(ranking, a - 1); }
  }

  lemma {:induction false} TopNamesCount(ranking: seq<(string, Info)>, a: nat)
    requires a <= |ranking|
    requires forall i, j :: 0 <= i < j < |ranking| ==> ranking[i].0 != ranking[j].0
    ensures |TopNames(ranking, a)| == a
  {
    if a > 0 {
      TopNamesCount(ranking, a - 1);
      TopNamesElements(ranking, a - 1);
    }
  }

  /** A permutation of items with distinct names has distinct names. */
  lemma RankingDistinct(names: seq<string>, info: map<string, Info>, ranking: seq<(string, Info)>)
    requires forall n :: n in names ==> n in info
    requires forall i, j :: 0 <= i < j < |names| ==> names[i] != names[j]
    requires multiset(ranking) == multiset(Items(names, info))
    ensures forall i, j :: 0 <= i < j < |ranking| ==> ranking[i].0 != ranking[j].0
  {
    var items := Items(names, info);
    forall i, j | 0 <= i < j < |ranking| ensures ranking[i].0 != ranking[j].0 {
      assert ranking[i] in multiset(items) && ranking[j] in multiset(items);
      if ranking[i].0 == ranking[j].0 {
        var x := ranking[i];
        assert x in items && ranking[j] in items;
        assert ranking[j] == x;
        assert ranking == ranking[..i] + [x] + ranking[i + 1..j] + [x] + ranking[j + 1..];
        assert multiset(ranking)[x] >= 2;
        DistinctMultiplicity(items, x);
      }
    }
  }

  lemma DistinctMultiplicity(items: seq<(string, Info)>, x: (string, Info))
    requires forall i, j :: 0 <= i < j < |items| ==> items[i].0 != items[j].0
    ensures multiset(items)[x] <= 1
  {
    if items != [] {
      var rest, last := items[..|items| - 1], items[|items| - 1];
      DistinctMultiplicity(rest, x);
      assert items == rest + [last];
      if last == x {
        assert forall i :: 0 <= i < |rest| ==> rest[i].0 != items[|items| - 1].0;
        assert x !in rest;
      }
    }
  }
}
