/** Walking the whole tree, level by level, the way a client of `tree` does. */
module Browsing {
  import opened Names
  import opened Tree
  import Selection

  /** The prefix a client asks for to see what is below branch `b` of `prefix`. */
  function Child(prefix: string, sep: string, b: string): string {
    Head(prefix, sep) + b
  }

  predicate NoneStartsWith(names: set<string>, sep: string) {
    forall n :: n in names ==> !HasPrefix(n, sep)
  }

  /** A prefix from which the walk makes sense: at the root no name may begin with the separator. */
  predicate Walkable(names: set<string>, prefix: string, sep: string) {
    sep != "" && (prefix == "" ==> NoneStartsWith(names, sep))
  }

  function MaxLength(names: seq<string>): (m: nat)
    ensures forall n :: n in names ==> |n| <= m
  {
    if names == [] then 0
    else
      var rest := MaxLength(names[1..]);
      assert forall n :: n in names ==> n == names[0] || n in names[1..];
      if |names[0]| > rest then |names[0]| else rest
  }

  function Room(names: set<string>, head: string): nat {
    var m := MaxLength(Sorted(names));
    if |head| <= m then m + 1 - |head| else 0
  }

  /** Below a branch the head is longer, and still begins some name. */
  lemma ChildHead(names: set<string>, prefix: string, sep: string, b: string)
    requires Walkable(names, prefix, sep) && b in Branches(names, Head(prefix, sep), sep)
    ensures Head(Child(prefix, sep, b), sep) == Head(prefix, sep) + b + sep
    ensures Walkable(names, Child(prefix, sep, b), sep)
    ensures Room(names, Head(Child(prefix, sep, b), sep)) < Room(names, Head(prefix, sep))
  {
    var head := Head(prefix, sep);
    var n :| n in names && Listed(n, head, sep, BRANCH) && Component(n, head, sep) == b;
    OwnBranch(n, head, sep);
    assert head == "" && b == "" ==> HasPrefix(n, sep) by {
      if head == "" && b == "" { assert head + b + sep == sep; }
    }
    assert prefix != "" ==> head != "";
    assert |head + b + sep| <= |n|;
    assert n in Sorted(names);
  }

  function WithHead(head: string, leaves: seq<string>): (r: seq<string>)
    ensures |r| == |leaves| && forall i :: 0 <= i < |r| ==> r[i] == head + leaves[i]
  {
    seq(|leaves|, i requires 0 <= i < |leaves| => head + leaves[i])
  }

  /** The names met by a walk from `prefix`: the leaves there, then what is below each branch. */
  function Browse(names: set<string>, prefix: string, sep: string): seq<string>
    requires Walkable(names, prefix, sep)
    decreases Room(names, Head(prefix, sep)), 1, 0
  {
    var head := Head(prefix, sep);
    WithHead(head, Sorted(Leaves(names, head, sep)))
    + BrowseAll(names, prefix, sep, Sorted(Branches(names, head, sep)))
  }

  function BrowseAll(names: set<string>, prefix: string, sep: string, bs: seq<string>): seq<string>
    requires Walkable(names, prefix, sep)
    requires forall b :: b in bs ==> b in Branches(names, Head(prefix, sep), sep)
    decreases Room(names, Head(prefix, sep)), 0, |bs|
  {
    if bs == [] then []
    else
      var b := bs[|bs| - 1];
      ChildHead(names, prefix, sep, b);
      BrowseAll(names, prefix, sep, bs[..|bs| - 1]) + Browse(names, Child(prefix, sep, b), sep)
  }

  /** Is `n` below one of the branches `bs`? */
  ghost predicate IsBelowAny(names: set<string>, head: string, sep: string, bs: seq<string>, n: string) {
    exists i :: 0 <= i < |bs| && n in Under(names, head + bs[i] + sep)
  }

  lemma BelowAnyBranch(names: set<string>, head: string, sep: string, n: string)
    ensures IsBelowAny(names, head, sep, Sorted(Branches(names, head, sep)), n) <==> IsBelow(names, head, sep, n)
  {
    var bs := Sorted(Branches(names, head, sep));
    if IsBelow(names, head, sep, n) {
      var b :| b in Branches(names, head, sep) && n in Under(names, head + b + sep);
      assert b in bs;
      var i :| 0 <= i < |bs| && bs[i] == b;
      assert n in Under(names, head + bs[i] + sep);
    }
    if IsBelowAny(names, head, sep, bs, n) {
      var i :| 0 <= i < |bs| && n in Under(names, head + bs[i] + sep);
      assert bs[i] in bs;
    }
  }

  /** The walk meets every name under its head exactly once, and no other name. */
  lemma {:induction false} BrowseMeetsOnce(names: set<string>, prefix: string, sep: string, n: string)
    requires Walkable(names, prefix, sep)
    ensures multiset(Browse(names, prefix, sep))[n] == if n in Under(names, Head(prefix, sep)) then 1 else 0
    decreases Room(names, Head(prefix, sep)), 1, 0
  {
    var head := Head(prefix, sep);
    var leaves, bs := Sorted(Leaves(names, head, sep)), Sorted(Branches(names, head, sep));
    SortedDistinct(Branches(names, head, sep));
    SortedMultiset(Leaves(names, head, sep));
    assert NamesOf(Selection.WithZero(leaves)) == leaves;
    BrowseAllMeetsOnce(names, prefix, sep, bs, n);
    LeavesOnce(names, head, sep, leaves, n);
    BelowAnyBranch(names, head, sep, n);
    BrowsingPartitions(names, head, sep, n);
  }

  lemma {:induction false} BrowseAllMeetsOnce(names: set<string>, prefix: string, sep: string, bs: seq<string>, n: string)
    requires Walkable(names, prefix, sep)
    requires forall b :: b in bs ==> b in Branches(names, Head(prefix, sep), sep)
    requires forall i, j :: 0 <= i < j < |bs| ==> bs[i] != bs[j]
    ensures multiset(BrowseAll(names, prefix, sep, bs))[n] == if IsBelowAny(names, Head(prefix, sep), sep, bs, n) then 1 else 0
    decreases Room(names, Head(prefix, sep)), 0, |bs|
  {
    if bs != [] {
      var head, rest, b := Head(prefix, sep), bs[..|bs| - 1], bs[|bs| - 1];
      ChildHead(names, prefix, sep, b);
      BrowseMeetsOnce(names, Child(prefix, sep, b), sep, n);
      BrowseAllMeetsOnce(names, prefix, sep, rest, n);
      BelowExtend(names, head, sep, bs, n);
    }
  }

  lemma BelowExtend(names: set<string>, head: string, sep: string, bs: seq<string>, n: string)
    requires sep != "" && bs != []
    requires forall b :: b in bs ==> b in Branches(names, head, sep)
    requires forall i, j :: 0 <= i < j < |bs| ==> bs[i] != bs[j]
    ensures var here, before := n in Under(names, head + bs[|bs| - 1] + sep), IsBelowAny(names, head, sep, bs[..|bs| - 1], n);
            (IsBelowAny(names, head, sep, bs, n) <==> here || before) && !(here && before)
  {
    var rest, b := bs[..|bs| - 1], bs[|bs| - 1];
    assert bs[|bs| - 1] in bs;
    if IsBelowAny(names, head, sep, rest, n) {
      var i :| 0 <= i < |rest| && n in Under(names, head + rest[i] + sep);
      assert bs[i] == rest[i] && bs[i] in bs;
      BrowsingPartitions(names, head, sep, n);
    }
    if IsBelowAny(names, head, sep, bs, n) {
      var i :| 0 <= i < |bs| && n in Under(names, head + bs[i] + sep);
      assert i < |rest| ==> rest[i] == bs[i];
    }
  }

  /** However the leaves are ordered, each is met once. */
  lemma LeavesOnce(names: set<string>, head: string, sep: string, leaves: seq<string>, n: string)
    requires multiset(leaves) == multiset(Leaves(names, head, sep))
    ensures multiset(WithHead(head, leaves))[n] == if IsLeafName(names, head, sep, n) then 1 else 0
  {
    var w := WithHead(head, leaves);
    DistinctFromSet(leaves, Leaves(names, head, sep));
    forall i, j | 0 <= i < j < |w| ensures w[i] != w[j] {
      assert leaves[i] == w[i][|head|..] && leaves[j] == w[j][|head|..];
    }
    DistinctOnce(w, n);
    if IsLeafName(names, head, sep, n) {
      var l :| l in Leaves(names, head, sep) && n == head + l;
      assert l in leaves;
      var i :| 0 <= i < |leaves| && leaves[i] == l;
      assert w[i] == n;
    }
    if n in w {
      var i :| 0 <= i < |w| && w[i] == n;
      assert leaves[i] in leaves;
    }
  }

  /** A list with the elements of a set as its multiset has no repetitions. */
  lemma DistinctFromSet(r: seq<string>, s: set<string>)
    requires multiset(r) == multiset(s)
    ensures forall i, j :: 0 <= i < j < |r| ==> r[i] != r[j]
    ensures forall x :: x in r <==> x in s
  {
    forall x ensures x in r <==> x in s { assert x in multiset(r) <==> x in multiset(s); }
    forall i, j | 0 <= i < j < |r| ensures r[i] != r[j] {
      assert r == r[..i] + [r[i]] + r[i + 1..j] + [r[j]] + r[j + 1..];
      assert multiset(s)[r[i]] <= 1;
    }
  }

  /** From the root the walk meets exactly the names, each once. */
  lemma WholeTree(names: set<string>, sep: string)
    requires Walkable(names, "", sep)
    ensures multiset(Browse(names, "", sep)) == multiset(names)
  {
    forall n ensures multiset(Browse(names, "", sep))[n] == multiset(names)[n] {
      BrowseMeetsOnce(names, "", sep, n);
    }
  }

  /** When a name does begin with the separator, the root lists the branch "", whose own listing
      is the root's again: the walk would never leave the root. */
  lemma RootLoopsIff(names: set<string>, sep: string)
    requires sep != ""
    ensures "" in Branches(names, Head("", sep), sep) <==> !NoneStartsWith(names, sep)
    ensures Head(Child("", sep, ""), sep) == Head("", sep)
  {
    if !NoneStartsWith(names, sep) {
      var n :| n in names && HasPrefix(n, sep);
      assert OccursAt(n, sep, 0);
      assert Component(n, "", sep) == "";
      assert Listed(n, "", sep, BRANCH);
    }
    if "" in Branches(names, "", sep) {
      var n :| n in names && Listed(n, "", sep, BRANCH) && Component(n, "", sep) == "";
      OwnBranch(n, "", sep);
      assert "" + "" + sep == sep;
    }
  }
}
