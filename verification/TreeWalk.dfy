/** A client of `tree` that walks all of it, level by level. */
module TreeWalk {
  import opened Selection
  import opened Tree
  import opened Browsing
  import opened KeyCaches
  import Names

  /** One listing of branches, and one of leaves. */
  method BranchesBelow(cache: KeyCache, prefix: string, sep: string, sort: SortBy, power: bool) returns (bs: seq<string>)
    requires cache.Valid()
    ensures bs == Names.Sorted(Branches(cache.State().keys.Keys, Head(prefix, sep), sep))
  {
    var listing, _, _ := cache.ListTree(prefix, sep, 1, 0, 0, BRANCH, sort, power);
    bs := NamesOf(listing);
  }

  method LeavesBelow(cache: KeyCache, prefix: string, sep: string, sort: SortBy, power: bool) returns (leaves: seq<string>)
    requires cache.Valid()
    ensures multiset(leaves) == multiset(Leaves(cache.State().keys.Keys, Head(prefix, sep), sep))
  {
    var listing, _, _ := cache.ListTree(prefix, sep, 1, 0, 0, LEAF, sort, power);
    leaves := NamesOf(listing);
  }

  /** Asks for the branches below the prefix and walks each, then asks for the leaves; what it
      meets is what `Browse` meets, whatever the leaves are sorted by. */
  method Walk(cache: KeyCache, prefix: string, sep: string, sort: SortBy, power: bool, ghost names: set<string>)
    returns (met: seq<string>)
    requires cache.Valid() && names == cache.State().keys.Keys && Walkable(names, prefix, sep)
    ensures multiset(met) == multiset(Browse(names, prefix, sep))
    ensures forall n :: multiset(met)[n] == if n in Under(names, Head(prefix, sep)) then 1 else 0
    decreases Room(names, Head(prefix, sep)), 2
  {
    var bs := BranchesBelow(cache, prefix, sep, sort, power);
    met := WalkBranches(cache, prefix, sep, bs, sort, power, names);
    var leaves := LeavesBelow(cache, prefix, sep, sort, power);
    WalkIsBrowse(names, prefix, sep, met, leaves);
    met := met + WithHead(Head(prefix, sep), leaves);
  }

  method WalkBranches(cache: KeyCache, prefix: string, sep: string, bs: seq<string>, sort: SortBy, power: bool, ghost names: set<string>)
    returns (met: seq<string>)
    requires cache.Valid() && names == cache.State().keys.Keys && Walkable(names, prefix, sep)
    requires forall b :: b in bs ==> b in Branches(names, Head(prefix, sep), sep)
    ensures multiset(met) == multiset(BrowseAll(names, prefix, sep, bs))
    decreases Room(names, Head(prefix, sep)), 1
  {
    met := [];
    for i := 0 to |bs|
      invariant forall b :: b in bs[..i] ==> b in Branches(names, Head(prefix, sep), sep)
      invariant multiset(met) == multiset(BrowseAll(names, prefix, sep, bs[..i]))
    {
      BrowseStep(names, prefix, sep, bs, i);
      var below := WalkBranch(cache, prefix, sep, bs[i], sort, power, names);
      met := met + below;
    }
    assert bs[..|bs|] == bs;
  }

  method WalkBranch(cache: KeyCache, prefix: string, sep: string, b: string, sort: SortBy, power: bool, ghost names: set<string>)
    returns (met: seq<string>)
    requires cache.Valid() && names == cache.State().keys.Keys && Walkable(names, prefix, sep)
    requires b in Branches(names, Head(prefix, sep), sep) && Walkable(names, Child(prefix, sep, b), sep)
    ensures multiset(met) == multiset(Browse(names, Child(prefix, sep, b), sep))
    decreases Room(names, Head(prefix, sep)), 0
  {
    ChildHead(names, prefix, sep, b);
    met := Walk(cache, Child(prefix, sep, b), sep, sort, power, names);
  }

  /** The branches in order and the leaves in any order make up what `Browse` meets. */
  lemma WalkIsBrowse(names: set<string>, prefix: string, sep: string, below: seq<string>, leaves: seq<string>)
    requires Walkable(names, prefix, sep)
    requires multiset(below) == multiset(BrowseAll(names, prefix, sep, Names.Sorted(Branches(names, Head(prefix, sep), sep))))
    requires multiset(leaves) == multiset(Leaves(names, Head(prefix, sep), sep))
    ensures multiset(below + WithHead(Head(prefix, sep), leaves)) == multiset(Browse(names, prefix, sep))
    ensures forall n :: multiset(Browse(names, prefix, sep))[n] == if n in Under(names, Head(prefix, sep)) then 1 else 0
  {
    var head := Head(prefix, sep);
    var sorted := Names.Sorted(Leaves(names, head, sep));
    SortedMultiset(Leaves(names, head, sep));
    assert NamesOf(WithZero(sorted)) == sorted;
    forall n
      ensures multiset(WithHead(head, leaves))[n] == multiset(WithHead(head, sorted))[n]
      ensures multiset(Browse(names, prefix, sep))[n] == if n in Under(names, head) then 1 else 0
    {
      LeavesOnce(names, head, sep, leaves, n);
      LeavesOnce(names, head, sep, sorted, n);
      BrowseMeetsOnce(names, prefix, sep, n);
    }
    assert multiset(WithHead(head, leaves)) == multiset(WithHead(head, sorted));
  }

  lemma BrowseStep(names: set<string>, prefix: string, sep: string, bs: seq<string>, i: nat)
    requires Walkable(names, prefix, sep) && i < |bs|
    requires forall b :: b in bs ==> b in Branches(names, Head(prefix, sep), sep)
    ensures bs[i] in Branches(names, Head(prefix, sep), sep)
    ensures Walkable(names, Child(prefix, sep, bs[i]), sep)
    ensures BrowseAll(names, prefix, sep, bs[..i + 1])
            == BrowseAll(names, prefix, sep, bs[..i]) + Browse(names, Child(prefix, sep, bs[i]), sep)
  {
    var upTo := bs[..i + 1];
    assert bs[i] in bs;
    assert upTo[..i] == bs[..i] && upTo[i] == bs[i];
    ChildHead(names, prefix, sep, bs[i]);
  }
}
