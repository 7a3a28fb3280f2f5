/** Metric names: byte-wise lexicographic order (`std::string`), prefixes, suffixes and
    substring search. */
module Names {
  import opened Order

  /** `std::string::operator<`. */
  predicate Less(a: string, b: string) {
    if b == "" then false
    else if a == "" then true
    else a[0] < b[0] || (a[0] == b[0] && Less(a[1..], b[1..]))
  }

  /** The names part after `k` characters, where `a` ends or has the smaller character. */
  ghost predicate PartsBelow(a: string, b: string, k: nat) {
    k <= |a| && k < |b| && a[..k] == b[..k] && (k < |a| ==> a[k] < b[k])
  }

  /** `Less` is the lexicographic order. */
  lemma {:induction false} LessIff(a: string, b: string)
    ensures Less(a, b) <==> exists k: nat :: PartsBelow(a, b, k)
  {
    if a == "" {
      assert b != "" ==> PartsBelow(a, b, 0);
    } else if b != "" {
      LessIff(a[1..], b[1..]);
      if a[0] == b[0] && Less(a[1..], b[1..]) {
        var k: nat :| PartsBelow(a[1..], b[1..], k);
        assert a[..k + 1] == [a[0]] + a[1..][..k] && b[..k + 1] == [b[0]] + b[1..][..k];
        assert PartsBelow(a, b, k + 1);
      }
      if a[0] < b[0] {
        assert PartsBelow(a, b, 0);
      }
      if k: nat :| PartsBelow(a, b, k) {
        if k > 0 {
          assert a[0] == a[..k][0] == b[..k][0] == b[0];
          assert a[1..][..k - 1] == a[..k][1..] && b[1..][..k - 1] == b[..k][1..];
          assert PartsBelow(a[1..], b[1..], k - 1);
        }
      }
    }
  }

  lemma {:induction false} LessIrreflexive(a: string)
    ensures !Less(a, a)
  {
    if a != "" { LessIrreflexive(a[1..]); }
  }

  lemma {:induction false} LessTransitive(a: string, b: string, c: string)
    requires Less(a, b) && Less(b, c)
    ensures Less(a, c)
  {
    if a != "" && a[0] == b[0] == c[0] { LessTransitive(a[1..], b[1..], c[1..]); }
  }

  lemma {:induction false} LessTotal(a: string, b: string)
    ensures a == b || Less(a, b) || Less(b, a)
  {
    if a != "" && b != "" && a[0] == b[0] {
      LessTotal(a[1..], b[1..]);
      assert a == [a[0]] + a[1..] && b == [b[0]] + b[1..];
    }
  }

  lemma LessIsStrictTotal()
    ensures StrictTotal(Less)
  {
    forall a: string ensures !Less(a, a) { LessIrreflexive(a); }
    forall a, b, c | Less(a, b) && Less(b, c) ensures Less(a, c) { LessTransitive(a, b, c); }
    forall a, b ensures a == b || Less(a, b) || Less(b, a) { LessTotal(a, b); }
  }

  /** The names of a set in the iteration order of `std::map<std::string, ...>`. */
  function Sorted(s: set<string>): (r: seq<string>)
    ensures forall n :: n in r <==> n in s
  {
    LessIsStrictTotal();
    Enumerate(Less, s)
  }

  lemma SortedAscends(s: set<string>)
    ensures forall i, j :: 0 <= i < j < |Sorted(s)| ==> Less(Sorted(s)[i], Sorted(s)[j])
    ensures |Sorted(s)| == |s|
  {
    LessIsStrictTotal();
    EnumerateAscends(Less, s);
  }

  lemma SortedDistinct(s: set<string>)
    ensures forall i, j :: 0 <= i < j < |Sorted(s)| ==> Sorted(s)[i] != Sorted(s)[j]
    ensures |Sorted(s)| == |s|
  {
    LessIsStrictTotal();
    EnumerateAscends(Less, s);
    AscendingNoDuplicates(Less, Sorted(s));
  }

  lemma SortedUnique(s: set<string>, a: seq<string>)
    requires forall n :: n in a <==> n in s
    requires forall i, j :: 0 <= i < j < |a| ==> Less(a[i], a[j])
    ensures a == Sorted(s)
  {
    LessIsStrictTotal();
    EnumerateUnique(Less, s, a);
  }

  predicate HasPrefix(value: string, prefix: string) { prefix <= value }

  predicate HasSuffix(value: string, suffix: string) {
    |suffix| <= |value| && value[|value| - |suffix|..] == suffix
  }

  /** A name with prefix `p` is not below `p`. */
  lemma {:induction false} PrefixNotBelow(n: string, p: string)
    requires HasPrefix(n, p)
    ensures !Less(n, p)
  {
    if p != "" {
      assert n[1..][..|p| - 1] == n[..|p|][1..];
      PrefixNotBelow(n[1..], p[1..]);
    }
  }

  /** The names with prefix `p` are contiguous: once the scan has left them, it stays out. */
  lemma {:induction false} PrefixInterval(p: string, n: string, m: string)
    requires !Less(n, p) && !HasPrefix(n, p) && Less(n, m)
    ensures !HasPrefix(m, p)
  {
    if n != "" && p != "" && m != "" && n[0] == p[0] == m[0] {
      assert p == [p[0]] + p[1..] && n == [n[0]] + n[1..];
      PrefixInterval(p[1..], n[1..], m[1..]);
    }
  }

  // ----- std::string::find

  predicate OccursAt(s: string, sep: string, i: nat) {
    i + |sep| <= |s| && s[i..i + |sep|] == sep
  }

  /** `s.find(sep, pos)`: the first occurrence at or after `pos`; |s|+1 stands for npos. */
  function Find(s: string, sep: string, pos: nat): (i: nat)
    ensures i <= |s| ==> pos <= i && OccursAt(s, sep, i)
    ensures i > |s| ==> i == |s| + 1
    ensures forall j :: pos <= j < i ==> !OccursAt(s, sep, j)
    decreases |s| + 1 - pos
  {
    if pos > |s| then |s| + 1
    else if OccursAt(s, sep, pos) then pos
    else Find(s, sep, pos + 1)
  }
}
