/** Ordered containers.  `std::map`, `std::multiset` and a RocksDB column family are all
    iterated in the order of a strict total order on their keys; `Enumerate` is that
    iteration order, as a function of the set of keys. */
module Order {

  ghost predicate StrictTotal<K(!new)>(less: (K, K) -> bool) {
    && (forall a :: !less(a, a))
    && (forall a, b, c :: less(a, b) && less(b, c) ==> less(a, c))
    && (forall a, b :: a == b || less(a, b) || less(b, a))
  }

  ghost predicate Ascending<K>(less: (K, K) -> bool, s: seq<K>) {
    forall i, j :: 0 <= i < j < |s| ==> less(s[i], s[j])
  }

  ghost predicate IsLeast<K>(less: (K, K) -> bool, s: set<K>, k: K) {
    k in s && forall y :: y in s && y != k ==> less(k, y)
  }

  lemma {:induction false} LeastExists<K(!new)>(less: (K, K) -> bool, s: set<K>)
    requires StrictTotal(less) && s != {}
    ensures exists k :: IsLeast(less, s, k)
  {
    var x :| x in s;
    var others := s - {x};
    if others == {} {
      assert s == {x};
      assert IsLeast(less, s, x);
    } else {
      LeastExists(less, others);
      var y :| IsLeast(less, others, y);
      var k := if less(x, y) then x else y;
      assert less(x, y) || less(y, x);
      forall z | z in s && z != k
        ensures less(k, z)
      {
        if z != x && z != y {
          assert z in others;
          assert less(y, z);
        }
      }
      assert IsLeast(less, s, k);
    }
  }

  /** The keys of `s` in iteration order. */
  function Enumerate<K(!new, ==)>(less: (K, K) -> bool, s: set<K>): (r: seq<K>)
    requires StrictTotal(less)
    ensures forall k :: k in r <==> k in s
  {
    if s == {} then []
    else
      assert exists k :: IsLeast(less, s, k) by { LeastExists(less, s); }
      var k :| k in s && forall y :: y in s && y != k ==> less(k, y);
      var rest := Enumerate(less, s - {k});
      [k] + rest
  }

  /** The iteration is strictly ascending and visits each key once. */
  lemma {:induction false} EnumerateAscends<K(!new)>(less: (K, K) -> bool, s: set<K>)
    requires StrictTotal(less)
    ensures Ascending(less, Enumerate(less, s))
    ensures |Enumerate(less, s)| == |s|
  {
    if s != {} {
      var r := Enumerate(less, s);
      var k := r[0];
      assert r == [k] + Enumerate(less, s - {k});
      EnumerateAscends(less, s - {k});
      forall j | 0 < j < |r| ensures less(k, r[j]) {
        assert r[j] in Enumerate(less, s - {k});
      }
    }
  }

  /** An ascending sequence is determined by its set of elements. */
  lemma {:induction false} AscendingUnique<K(!new)>(less: (K, K) -> bool, a: seq<K>, b: seq<K>)
    requires StrictTotal(less) && Ascending(less, a) && Ascending(less, b)
    requires forall k :: k in a <==> k in b
    ensures a == b
  {
    assert a != [] ==> a[0] in b;
    assert b != [] ==> b[0] in a;
    if a != [] && b != [] {
      var i :| 0 <= i < |b| && b[i] == a[0];
      var j :| 0 <= j < |a| && a[j] == b[0];
      assert a[0] == b[0];
      TailElements(less, a);
      TailElements(less, b);
      AscendingUnique(less, a[1..], b[1..]);
      assert a == [a[0]] + a[1..] && b == [b[0]] + b[1..];
    }
  }

  lemma TailElements<K(!new)>(less: (K, K) -> bool, a: seq<K>)
    requires StrictTotal(less) && Ascending(less, a) && a != []
    ensures Ascending(less, a[1..])
    ensures forall k :: k in a[1..] <==> k in a && k != a[0]
  {
    forall k
      ensures k in a[1..] <==> k in a && k != a[0]
    {
      if k in a && k != a[0] {
        var i :| 0 <= i < |a| && a[i] == k;
        assert a[1..][i - 1] == k;
      }
      if k in a[1..] {
        var i :| 0 <= i < |a[1..]| && a[1..][i] == k;
        assert less(a[0], a[i + 1]);
      }
    }
  }

  /** Any ascending sequence is the enumeration of its elements. */
  lemma EnumerateUnique<K(!new)>(less: (K, K) -> bool, s: set<K>, a: seq<K>)
    requires StrictTotal(less) && Ascending(less, a)
    requires forall k :: k in a <==> k in s
    ensures a == Enumerate(less, s)
  {
    EnumerateAscends(less, s);
    AscendingUnique(less, a, Enumerate(less, s));
  }

  lemma AscendingNoDuplicates<K(!new)>(less: (K, K) -> bool, s: seq<K>)
    requires StrictTotal(less) && Ascending(less, s)
    ensures forall i, j :: 0 <= i < j < |s| ==> s[i] != s[j]
  {
  }

  /** An ascending sequence whose elements are closed downwards in `keys` is its beginning. */
  lemma {:induction false} InitialSegment<K(!new)>(less: (K, K) -> bool, keys: seq<K>, s: seq<K>)
    requires StrictTotal(less) && Ascending(less, keys) && Ascending(less, s)
    requires forall k :: k in s ==> k in keys
    requires forall i, j :: 0 <= i < j < |keys| && keys[j] in s ==> keys[i] in s
    ensures |s| <= |keys| && keys[..|s|] == s
    ensures forall i :: |s| <= i < |keys| ==> keys[i] !in s
  {
    if s != [] {
      assert s[0] in keys;
      var j :| 0 <= j < |keys| && keys[j] == s[0];
      assert keys[0] in s;
      var i :| 0 <= i < |s| && s[i] == keys[0];
      assert keys[0] == s[0];
      TailElements(less, s);
      TailElements(less, keys);
      forall i, j | 0 <= i < j < |keys[1..]| && keys[1..][j] in s[1..] ensures keys[1..][i] in s[1..] {
        assert keys[j + 1] in s && keys[i + 1] in s && less(keys[0], keys[i + 1]);
      }
      InitialSegment(less, keys[1..], s[1..]);
      assert s == [s[0]] + s[1..] && keys == [keys[0]] + keys[1..];
      forall i | |s| <= i < |keys| ensures keys[i] !in s {
        assert keys[1..][i - 1] !in s[1..] && less(keys[0], keys[i]);
      }
    }
  }

  // ----- pages of a sequence

  function MinOf(a: nat, b: nat): nat { if a < b then a else b }

  /** At most `n` elements after the first `offset`. */
  function Window<T>(s: seq<T>, offset: nat, n: nat): seq<T> {
    s[MinOf(offset, |s|)..MinOf(offset + n, |s|)]
  }

  function PageEnd(n: nat, offset: nat, limit: nat): nat {
    if limit == 0 then n else MinOf(offset + limit, n)
  }

  /** Page `(offset, limit)` of a sequence; limit 0 stands for no limit. */
  function Page<T>(s: seq<T>, offset: nat, limit: nat): seq<T> {
    s[MinOf(offset, |s|)..PageEnd(|s|, offset, limit)]
  }

  /** `r` is the elements of `s` from position `offset` on, `n` of them if there are so many. */
  ghost predicate IsWindow<T>(s: seq<T>, offset: nat, n: nat, r: seq<T>) {
    && (offset >= |s| ==> r == [])
    && (offset < |s| ==> |r| == if |s| - offset < n then |s| - offset else n)
    && forall i :: 0 <= i < |r| ==> offset + i < |s| && r[i] == s[offset + i]
  }

  function PageLength(n: nat, offset: nat, limit: nat): nat {
    if n <= offset then 0 else if limit == 0 || n - offset < limit then n - offset else limit
  }

  lemma WindowIs<T>(s: seq<T>, offset: nat, n: nat)
    ensures IsWindow(s, offset, n, Window(s, offset, n))
  {
  }

  /** A page holds at most `limit` elements from the offset on, or all of them for limit 0. */
  lemma PageIs<T>(s: seq<T>, offset: nat, limit: nat)
    ensures IsWindow(s, offset, if limit == 0 then |s| else limit, Page(s, offset, limit))
  {
  }

  /** The first `k` pages of length `limit`, one after the other. */
  function Pages<T>(s: seq<T>, limit: nat, k: nat): seq<T> {
    if k == 0 then [] else Pages(s, limit, k - 1) + Page(s, (k - 1) * limit, limit)
  }

  /** Consecutive pages concatenate to a prefix, and enough of them to the whole. */
  lemma {:induction false} PagesConcatenate<T>(s: seq<T>, limit: nat, k: nat)
    requires limit > 0
    ensures Pages(s, limit, k) == s[..MinOf(k * limit, |s|)]
    ensures k * limit >= |s| ==> Pages(s, limit, k) == s
  {
    if k > 0 {
      PagesConcatenate(s, limit, k - 1);
      assert (k - 1) * limit + limit == k * limit;
      assert 0 <= (k - 1) * limit <= k * limit;
    }
  }
}
