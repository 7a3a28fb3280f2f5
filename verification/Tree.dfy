/** Browsing the names as a tree whose levels are parted by a separator: `key_cache::tree`. */
module Tree {
  import opened Order
  import opened Names
  import opened Selection

  datatype TreeNode = ANY | LEAF | BRANCH

  /** What the names below `prefix` begin with. */
  function Head(prefix: string, sep: string): string {
    if prefix == "" then "" else prefix + sep
  }

  /** The loop over `depth`: the search position is not moved past a separator it has found. */
  function FindDepth(s: string, sep: string, pos: nat, depth: nat): nat
    decreases depth
  {
    if depth == 0 || pos > |s| then pos else FindDepth(s, sep, Find(s, sep, pos), depth - 1)
  }

  /** So every depth from 1 on gives the first separator. */
  lemma {:induction false} DepthIsOne(s: string, sep: string, pos: nat, depth: nat)
    requires depth >= 1 && pos <= |s|
    ensures FindDepth(s, sep, pos, depth) == Find(s, sep, pos)
    decreases depth
  {
    var p := Find(s, sep, pos);
    if depth > 1 && p <= |s| {
      assert Find(s, sep, p) == p;
      DepthIsOne(s, sep, p, depth - 1);
    }
  }

  predicate IsBranch(n: string, head: string, sep: string) {
    Find(n, sep, |head|) <= |n|
  }

  /** The part of a name between the head and the next separator, or its end. */
  function Component(n: string, head: string, sep: string): string
    requires HasPrefix(n, head)
  {
    n[|head|..MinOf(Find(n, sep, |head|), |n|)]
  }

  /** Is a name listed for this kind of node? */
  predicate Listed(n: string, head: string, sep: string, node: TreeNode) {
    HasPrefix(n, head) && if IsBranch(n, head, sep) then node != LEAF else node != BRANCH
  }

  /** The entries for a list of names below the head, in the order of the list. */
  function Entries(list: seq<NameValue>, head: string, sep: string, node: TreeNode): seq<NameValue> {
    if list == [] then []
    else
      var rest, item := Entries(list[..|list| - 1], head, sep, node), list[|list| - 1];
      if Listed(item.0, head, sep, node) then rest + [(Component(item.0, head, sep), item.1)] else rest
  }

  /** The first components below a head: of all names, of those that end there, of those that
      go on. */
  function Components(names: set<string>, head: string, sep: string, node: TreeNode): set<string> {
    set n | n in names && Listed(n, head, sep, node) :: Component(n, head, sep)
  }

  function TreePage<T>(s: seq<T>, offset: nat, limit: nat): seq<T> {
    if offset == 0 then (if limit != 0 && |s| > limit then s[..limit] else s)
    else if |s| < offset then []
    else if |s| < offset + limit then s[offset..]
    else s[offset..offset + limit]
  }

  /** The page is the page `select` would give, except that limit 0 after the start gives
      nothing. */
  lemma TreePageIsPageIff<T>(s: seq<T>, offset: nat, limit: nat)
    ensures TreePage(s, offset, limit) == Page(s, offset, limit) <==> limit > 0 || offset == 0 || offset >= |s|
    ensures limit == 0 && offset > 0 ==> TreePage(s, offset, limit) == []
  {
    if limit == 0 && 0 < offset < |s| {
      assert |Page(s, offset, limit)| == |s| - offset;
    }
  }

  /** The first `k` tree pages of length `limit`, one after the other. */
  function TreePages<T>(s: seq<T>, limit: nat, k: nat): seq<T> {
    if k == 0 then [] else TreePages(s, limit, k - 1) + TreePage(s, (k - 1) * limit, limit)
  }

  /** For a positive limit the tree pages concatenate to the listing. */
  lemma {:induction false} TreePagesConcatenate<T>(s: seq<T>, limit: nat, k: nat)
    requires limit > 0
    ensures TreePages(s, limit, k) == Pages(s, limit, k)
    ensures k * limit >= |s| ==> TreePages(s, limit, k) == s
  {
    if k > 0 {
      TreePagesConcatenate(s, limit, k - 1);
      TreePageIsPageIff(s, (k - 1) * limit, limit);
    }
    PagesConcatenate(s, limit, k);
  }

  // ----- sort and unique

  predicate NameBefore(a: NameValue, b: NameValue) { Less(a.0, b.0) }

  /** `std::unique` by name: the first of every run of equal names. */
  function Unique(s: seq<NameValue>): seq<NameValue> {
    if s == [] then []
    else
      var rest, last := Unique(s[..|s| - 1]), s[|s| - 1];
      if rest != [] && rest[|rest| - 1].0 == last.0 then rest else rest + [last]
  }

  lemma {:induction false} UniqueElements(s: seq<NameValue>)
    requires forall i :: 0 <= i < |s| ==> s[i].1 == 0
    ensures forall x :: x in Unique(s) <==> x in s
    ensures s != [] ==> Unique(s) != [] && Unique(s)[|Unique(s)| - 1] == s[|s| - 1]
  {
    if s != [] {
      var init, last := s[..|s| - 1], s[|s| - 1];
      UniqueElements(init);
      assert s == init + [last];
      var rest := Unique(init);
      assert rest != [] ==> rest[|rest| - 1] in init;
    }
  }

  lemma {:induction false} UniqueAscends(s: seq<NameValue>)
    requires forall i, j :: 0 <= i < j < |s| ==> !Less(s[j].0, s[i].0)
    requires forall i :: 0 <= i < |s| ==> s[i].1 == 0
    ensures forall i, j :: 0 <= i < j < |Unique(s)| ==> Less(Unique(s)[i].0, Unique(s)[j].0)
  {
    if |s| > 1 {
      var init, last := s[..|s| - 1], s[|s| - 1];
      UniqueAscends(init);
      UniqueElements(init);
      var rest := Unique(init);
      var end := rest[|rest| - 1];
      assert end == s[|s| - 2];
      LessTotal(end.0, last.0);
      forall i | 0 <= i < |rest| ensures end.0 != last.0 ==> Less(rest[i].0, last.0) {
        if i < |rest| - 1 && end.0 != last.0 { LessTransitive(rest[i].0, end.0, last.0); }
      }
    }
  }

  lemma NameBeforeIsStrictWeak()
    ensures StrictWeak(NameBefore)
  {
    forall a: NameValue, b: NameValue | NameBefore(a, b) ensures !NameBefore(b, a) {
      LessIrreflexive(a.0);
      if Less(b.0, a.0) { LessTransitive(a.0, b.0, a.0); }
    }
    forall a: NameValue, b: NameValue, c: NameValue | !NameBefore(a, b) && !NameBefore(b, c) ensures !NameBefore(a, c) {
      LessTotal(b.0, a.0);
      LessTotal(c.0, b.0);
      LessIrreflexive(a.0);
      if Less(a.0, c.0) {
        if b.0 != a.0 { LessTransitive(b.0, a.0, c.0); }
      }
    }
  }

  /** Sorting by name and dropping repetitions lists the distinct names in ascending order. */
  method SortUnique(res: seq<NameValue>) returns (r: seq<NameValue>)
    requires forall i :: 0 <= i < |res| ==> res[i].1 == 0
    ensures r == WithZero(Sorted(set x | x in res :: x.0))
  {
    NameBeforeIsStrictWeak();
    var sorted := StdSort(NameBefore, res);
    assert forall x :: x in sorted <==> x in res by {
      forall x ensures x in sorted <==> x in res {
        assert x in multiset(sorted) <==> x in multiset(res);
      }
    }
    assert forall i :: 0 <= i < |sorted| ==> sorted[i] in res;
    assert forall i, j :: 0 <= i < j < |sorted| ==> !NameBefore(sorted[j], sorted[i]);
    UniqueElements(sorted);
    UniqueAscends(sorted);
    r := Unique(sorted);
    AscendingIsSorted(res, r);
  }

  lemma AscendingIsSorted(res: seq<NameValue>, r: seq<NameValue>)
    requires forall i :: 0 <= i < |res| ==> res[i].1 == 0
    requires forall x :: x in r <==> x in res
    requires forall i, j :: 0 <= i < j < |r| ==> Less(r[i].0, r[j].0)
    ensures r == WithZero(Sorted(set x | x in res :: x.0))
  {
    var names := seq(|r|, i requires 0 <= i < |r| => r[i].0);
    var all := set x | x in res :: x.0;
    forall n ensures n in names <==> n in all {
      if n in names {
        var i :| 0 <= i < |r| && names[i] == n;
        assert r[i] in r;
      }
      if n in all {
        var x :| x in res && x.0 == n;
        assert x in r;
        var i :| 0 <= i < |r| && r[i] == x;
        assert names[i] == n;
      }
    }
    SortedUnique(all, names);
    forall i | 0 <= i < |r| ensures r[i].1 == 0 {
      assert r[i] in r;
    }
  }

  // ----- the loop of `tree`

  lemma {:induction false} EntriesOfNames(list: seq<NameValue>, head: string, sep: string, node: TreeNode)
    requires forall i :: 0 <= i < |list| ==> list[i].1 == 0
    ensures (set x | x in Entries(list, head, sep, node) :: x.0) == Components((set y | y in list :: y.0), head, sep, node)
    ensures forall i :: 0 <= i < |Entries(list, head, sep, node)| ==> Entries(list, head, sep, node)[i].1 == 0
  {
    if list != [] {
      var rest, item := list[..|list| - 1], list[|list| - 1];
      EntriesOfNames(rest, head, sep, node);
      assert list == rest + [item];
      assert (set y | y in list :: y.0) == (set y | y in rest :: y.0) + {item.0};
      var e, f := Entries(list, head, sep, node), Entries(rest, head, sep, node);
      if Listed(item.0, head, sep, node) {
        var c := (Component(item.0, head, sep), item.1);
        assert (set x | x in f + [c] :: x.0) == (set x | x in f :: x.0) + {c.0};
      }
    }
  }

  method ListEntries(list: seq<NameValue>, head: string, sep: string, depth: nat, node: TreeNode)
    returns (res: seq<NameValue>)
    requires depth >= 1
    requires forall i :: 0 <= i < |list| ==> HasPrefix(list[i].0, head)
    ensures res == Entries(list, head, sep, node)
  {
    res := [];
    for k := 0 to |list|
      invariant res == Entries(list[..k], head, sep, node)
    {
      var item := list[k];
      assert list[..k + 1][..k] == list[..k] && list[..k + 1][k] == item;
      var pos := |head|;
      var i := 0;
      while i < depth
        invariant i <= depth && |head| <= pos
        invariant FindDepth(item.0, sep, pos, depth - i) == FindDepth(item.0, sep, |head|, depth)
        invariant i == depth || pos <= |item.0|
      {
        pos := Find(item.0, sep, pos);
        i := i + 1;
        if pos > |item.0| {
          break;
        }
      }
      DepthIsOne(item.0, sep, |head|, depth);
      assert pos == Find(item.0, sep, |head|);
      ghost var next := Entries(list[..k + 1], head, sep, node);
      assert next == if Listed(item.0, head, sep, node) then res + [(Component(item.0, head, sep), item.1)] else res;
      if pos > |item.0| {
        assert item.0[|head|..] == Component(item.0, head, sep);
        if node != BRANCH {
          res := res + [(item.0[|head|..], item.1)];
        }
      } else if node != LEAF {
        pos := Find(item.0, sep, pos);
        var size1 := if pos <= |item.0| then pos - |head| else |item.0| - |head|;
        assert item.0[|head|..|head| + size1] == Component(item.0, head, sep);
        res := res + [(item.0[|head|..|head| + size1], item.1)];
      }
    }
    assert list[..|list|] == list;
  }

  // ----- what is listed, in terms of the names alone

  /** The name is the head and `c`, with no separator after the head. */
  ghost predicate EndsAt(n: string, head: string, sep: string, c: string) {
    n == head + c && forall j :: |head| <= j <= |n| ==> !OccursAt(n, sep, j)
  }

  /** The name goes on with a separator, its first after the head, behind the head and `c`. */
  ghost predicate ContinuesAt(n: string, head: string, sep: string, c: string) {
    HasPrefix(n, head + c + sep) && forall j :: |head| <= j < |head + c| ==> !OccursAt(n, sep, j)
  }

  /** Some name makes `c` an entry for this kind of node. */
  ghost predicate InListing(names: set<string>, head: string, sep: string, node: TreeNode, c: string) {
    || (node != BRANCH && exists n :: n in names && EndsAt(n, head, sep, c))
    || (node != LEAF && exists n :: n in names && ContinuesAt(n, head, sep, c))
  }

  lemma ContinuesIff(n: string, head: string, sep: string, c: string)
    ensures ContinuesAt(n, head, sep, c) <==> HasPrefix(n, head) && IsBranch(n, head, sep) && Component(n, head, sep) == c
  {
    if ContinuesAt(n, head, sep, c) {
      var p := |head + c|;
      assert n[..p + |sep|] == head + c + sep;
      assert n[..|head|] == n[..p + |sep|][..|head|] == head;
      assert n[p..p + |sep|] == n[..p + |sep|][p..] == sep;
      FirstOccurrence(n, sep, |head|, p);
      assert n[|head|..p] == n[..p + |sep|][|head|..p] == c;
    }
    if HasPrefix(n, head) && IsBranch(n, head, sep) && Component(n, head, sep) == c {
      OwnBranch(n, head, sep);
    }
  }

  lemma EndsIff(n: string, head: string, sep: string, c: string)
    ensures EndsAt(n, head, sep, c) <==> HasPrefix(n, head) && !IsBranch(n, head, sep) && Component(n, head, sep) == c
  {
  }

  /** For every kind of node exactly the names that end, or go on, there are listed. */
  lemma ListingIff(names: set<string>, head: string, sep: string, node: TreeNode, c: string)
    ensures c in Components(names, head, sep, node) <==> InListing(names, head, sep, node, c)
  {
    forall n ensures EndsAt(n, head, sep, c) || ContinuesAt(n, head, sep, c) <==> HasPrefix(n, head) && Component(n, head, sep) == c
             ensures ContinuesAt(n, head, sep, c) ==> IsBranch(n, head, sep)
             ensures EndsAt(n, head, sep, c) ==> !IsBranch(n, head, sep)
    {
      EndsIff(n, head, sep, c);
      ContinuesIff(n, head, sep, c);
    }
  }

  /** So the listing of any node is made of the leaves and the branches. */
  lemma AnyIsBoth(names: set<string>, head: string, sep: string)
    ensures Components(names, head, sep, ANY) == Leaves(names, head, sep) + Branches(names, head, sep)
  {
    forall c ensures c in Components(names, head, sep, ANY) <==> c in Leaves(names, head, sep) + Branches(names, head, sep) {
      ListingIff(names, head, sep, ANY, c);
      ListingIff(names, head, sep, LEAF, c);
      ListingIff(names, head, sep, BRANCH, c);
    }
  }

  // ----- what a whole listing holds

  function NamesOf(list: seq<NameValue>): (r: seq<string>)
    ensures |r| == |list| && forall i :: 0 <= i < |r| ==> r[i] == list[i].0
  {
    seq(|list|, i requires 0 <= i < |list| => list[i].0)
  }

  ghost predicate HasName(list: seq<NameValue>, n: string) {
    exists i :: 0 <= i < |list| && list[i].0 == n
  }

  /** `list` has every name below the head once, and no other name. */
  ghost predicate ListsOnce(list: seq<NameValue>, names: set<string>, head: string) {
    && (forall n :: HasName(list, n) <==> n in names && HasPrefix(n, head))
    && (forall i, j :: 0 <= i < j < |list| ==> list[i].0 != list[j].0)
  }

  /** A leaf is listed as often as its name is. */
  lemma {:induction false} LeafEntries(list: seq<NameValue>, head: string, sep: string, l: string)
    requires forall i, j :: 0 <= i < j < |list| ==> list[i].0 != list[j].0
    ensures multiset(NamesOf(Entries(list, head, sep, LEAF)))[l] ==
            if HasName(list, head + l) && !IsBranch(head + l, head, sep) then 1 else 0
  {
    if list != [] {
      var rest, item := list[..|list| - 1], list[|list| - 1];
      LeafEntries(rest, head, sep, l);
      NameExtends(list, head + l);
      assert item.0 == head + l ==> HasPrefix(item.0, head) && item.0[|head|..] == l;
      if Listed(item.0, head, sep, LEAF) {
        var c := Component(item.0, head, sep);
        assert item.0 == head + c;
        assert Entries(list, head, sep, LEAF) == Entries(rest, head, sep, LEAF) + [(c, item.1)];
        assert NamesOf(Entries(list, head, sep, LEAF)) == NamesOf(Entries(rest, head, sep, LEAF)) + [c];
      } else {
        assert item.0 == head + l ==> IsBranch(head + l, head, sep);
      }
    }
  }

  lemma NameExtends(list: seq<NameValue>, n: string)
    requires list != [] && forall i, j :: 0 <= i < j < |list| ==> list[i].0 != list[j].0
    ensures HasName(list, n) <==> HasName(list[..|list| - 1], n) || list[|list| - 1].0 == n
    ensures HasName(list[..|list| - 1], n) ==> list[|list| - 1].0 != n
  {
    var rest := list[..|list| - 1];
    if i :| 0 <= i < |rest| && rest[i].0 == n { assert list[i].0 == n && list[i].0 != list[|rest|].0; }
    if i :| 0 <= i < |list| && list[i].0 == n { assert i < |rest| ==> rest[i].0 == n; }
  }

  /** Whatever the order of the selection, its leaves are listed once each. */
  lemma LeavesListedOnce(names: set<string>, list: seq<NameValue>, head: string, sep: string)
    requires ListsOnce(list, names, head)
    ensures multiset(NamesOf(Entries(list, head, sep, LEAF))) == multiset(Components(names, head, sep, LEAF))
  {
    forall l ensures multiset(NamesOf(Entries(list, head, sep, LEAF)))[l] == multiset(Components(names, head, sep, LEAF))[l] {
      LeafEntries(list, head, sep, l);
      if l in Components(names, head, sep, LEAF) {
        LeafShape(names, head, sep, l);
      }
      if head + l in names && !IsBranch(head + l, head, sep) {
        assert HasPrefix(head + l, head);
        assert Component(head + l, head, sep) == l;
        assert Listed(head + l, head, sep, LEAF);
      }
    }
  }

  /** The entries for leaves keep the values of the selection ... */
  lemma {:induction false} LeafEntriesFollow(list: seq<NameValue>, head: string, sep: string, e: NameValue)
    requires e in Entries(list, head, sep, LEAF)
    ensures (head + e.0, e.1) in list
  {
    var rest, item := list[..|list| - 1], list[|list| - 1];
    assert list == rest + [item];
    if e in Entries(rest, head, sep, LEAF) {
      LeafEntriesFollow(rest, head, sep, e);
    } else {
      assert head + Component(item.0, head, sep) == item.0;
    }
  }

  /** ... and its order: that of the values ... */
  lemma {:induction false} LeafEntriesDescend(list: seq<NameValue>, head: string, sep: string)
    requires Descends(list)
    ensures Descends(Entries(list, head, sep, LEAF))
  {
    if list != [] {
      var rest, item := list[..|list| - 1], list[|list| - 1];
      var f := Entries(rest, head, sep, LEAF);
      LeafEntriesDescend(rest, head, sep);
      forall i | 0 <= i < |f| ensures f[i].1 >= item.1 {
        LeafEntriesFollow(rest, head, sep, f[i]);
        var p :| 0 <= p < |rest| && rest[p] == (head + f[i].0, f[i].1);
        assert list[p].1 >= list[|rest|].1;
      }
    }
  }

  ghost predicate NamesAscend(list: seq<NameValue>, head: string) {
    forall i, j :: 0 <= i < j < |list| ==> Less(head + list[i].0, head + list[j].0)
  }

  /** ... or that of the names. */
  lemma {:induction false} LeafEntriesAscend(list: seq<NameValue>, head: string, sep: string)
    requires forall i, j :: 0 <= i < j < |list| ==> Less(list[i].0, list[j].0)
    ensures NamesAscend(Entries(list, head, sep, LEAF), head)
  {
    if list != [] {
      var rest, item := list[..|list| - 1], list[|list| - 1];
      var f := Entries(rest, head, sep, LEAF);
      LeafEntriesAscend(rest, head, sep);
      forall i | 0 <= i < |f| ensures Less(head + f[i].0, item.0) {
        LeafEntriesFollow(rest, head, sep, f[i]);
        var p :| 0 <= p < |rest| && rest[p] == (head + f[i].0, f[i].1);
        assert Less(list[p].0, list[|rest|].0);
      }
      if Listed(item.0, head, sep, LEAF) {
        assert head + Component(item.0, head, sep) == item.0;
      }
    }
  }

  /** The sorted list of a set, as a multiset. */
  lemma SortedMultiset(s: set<string>)
    ensures multiset(NamesOf(WithZero(Sorted(s)))) == multiset(s)
  {
    SortedDistinct(s);
    assert NamesOf(WithZero(Sorted(s))) == Sorted(s);
    forall n ensures multiset(Sorted(s))[n] == multiset(s)[n] { DistinctOnce(Sorted(s), n); }
  }

  lemma {:induction false} DistinctOnce(w: seq<string>, n: string)
    requires forall i, j :: 0 <= i < j < |w| ==> w[i] != w[j]
    ensures multiset(w)[n] == if n in w then 1 else 0
  {
    if w != [] {
      var rest, last := w[..|w| - 1], w[|w| - 1];
      DistinctOnce(rest, n);
      assert w == rest + [last];
      assert last !in rest;
    }
  }

  // ----- browsing

  function Under(names: set<string>, head: string): set<string> {
    set n | n in names && HasPrefix(n, head)
  }

  function Leaves(names: set<string>, head: string, sep: string): set<string> {
    Components(names, head, sep, LEAF)
  }

  function Branches(names: set<string>, head: string, sep: string): set<string> {
    Components(names, head, sep, BRANCH)
  }

  /** `b` is the component of `n` and `n` goes on after it exactly when `n` begins with the
      head, `b` and a separator, and `b` ends at the first separator. */
  lemma BranchHead(n: string, m: string, head: string, sep: string)
    requires sep != "" && HasPrefix(m, head) && IsBranch(m, head, sep)
    requires HasPrefix(n, head + Component(m, head, sep) + sep)
    ensures HasPrefix(n, head) && IsBranch(n, head, sep)
    ensures Component(n, head, sep) == Component(m, head, sep)
  {
    var p := Find(m, sep, |head|);
    var len := p + |sep|;
    OwnBranch(m, head, sep);
    assert |head + Component(m, head, sep) + sep| == len;
    assert n[..len] == head + Component(m, head, sep) + sep == m[..len];
    SameSlice(n, m, len, 0, |head|);
    SameSlice(n, m, len, p, len);
    SameSlice(n, m, len, |head|, p);
    forall j | |head| <= j < p ensures !OccursAt(n, sep, j) {
      SameSlice(n, m, len, j, j + |sep|);
      assert !OccursAt(m, sep, j);
    }
    FirstOccurrence(n, sep, |head|, p);
  }

  lemma SameSlice(n: string, m: string, len: nat, i: nat, j: nat)
    requires i <= j <= len <= |n| && len <= |m| && n[..len] == m[..len]
    ensures n[i..j] == m[i..j]
  {
    assert n[..len][i..j] == n[i..j] && m[..len][i..j] == m[i..j];
  }

  lemma FirstOccurrence(s: string, sep: string, pos: nat, p: nat)
    requires pos <= p && OccursAt(s, sep, p)
    requires forall j :: pos <= j < p ==> !OccursAt(s, sep, j)
    ensures Find(s, sep, pos) == p
    decreases p - pos
  {
    if pos < p { FirstOccurrence(s, sep, pos + 1, p); }
  }

  lemma OwnBranch(n: string, head: string, sep: string)
    requires HasPrefix(n, head) && IsBranch(n, head, sep)
    ensures HasPrefix(n, head + Component(n, head, sep) + sep)
  {
    var p := Find(n, sep, |head|);
    assert head + Component(n, head, sep) == n[..p];
    assert n[..p] + n[p..p + |sep|] == n[..p + |sep|];
  }

  lemma LeafShape(names: set<string>, head: string, sep: string, l: string)
    requires l in Leaves(names, head, sep)
    ensures head + l in Under(names, head) && !IsBranch(head + l, head, sep)
  {
    var n :| n in names && Listed(n, head, sep, LEAF) && Component(n, head, sep) == l;
    assert n == head + l;
  }

  lemma BelowBranch(names: set<string>, head: string, sep: string, b: string, n: string)
    requires sep != "" && b in Branches(names, head, sep) && n in Under(names, head + b + sep)
    ensures n in Under(names, head) && IsBranch(n, head, sep) && Component(n, head, sep) == b
  {
    var m :| m in names && Listed(m, head, sep, BRANCH) && Component(m, head, sep) == b;
    BranchHead(n, m, head, sep);
  }

  ghost predicate IsLeafName(names: set<string>, head: string, sep: string, n: string) {
    exists l :: l in Leaves(names, head, sep) && n == head + l
  }

  ghost predicate IsBelow(names: set<string>, head: string, sep: string, n: string) {
    exists b :: b in Branches(names, head, sep) && n in Under(names, head + b + sep)
  }

  lemma NameIsSomewhere(names: set<string>, head: string, sep: string, n: string)
    requires n in Under(names, head)
    ensures IsLeafName(names, head, sep, n) || IsBelow(names, head, sep, n)
  {
    if IsBranch(n, head, sep) {
      OwnBranch(n, head, sep);
      assert Component(n, head, sep) in Branches(names, head, sep);
    } else {
      assert n == head + Component(n, head, sep);
      assert Component(n, head, sep) in Leaves(names, head, sep);
    }
  }

  /** The names under a head fall apart into the leaves and, for each branch, the names under
      that branch; no name is in two parts. */
  lemma BrowsingPartitions(names: set<string>, head: string, sep: string, n: string)
    requires sep != ""
    ensures n in Under(names, head) <==> IsLeafName(names, head, sep, n) || IsBelow(names, head, sep, n)
    ensures !(IsLeafName(names, head, sep, n) && IsBelow(names, head, sep, n))
    ensures forall b, c | b in Branches(names, head, sep) && c in Branches(names, head, sep) ::
              n in Under(names, head + b + sep) && n in Under(names, head + c + sep) ==> b == c
  {
    if IsLeafName(names, head, sep, n) {
      var l :| l in Leaves(names, head, sep) && n == head + l;
      LeafShape(names, head, sep, l);
    }
    forall b | b in Branches(names, head, sep) && n in Under(names, head + b + sep)
      ensures n in Under(names, head) && IsBranch(n, head, sep) && Component(n, head, sep) == b
    {
      BelowBranch(names, head, sep, b, n);
    }
    if n in Under(names, head) {
      NameIsSomewhere(names, head, sep, n);
    }
  }
}
