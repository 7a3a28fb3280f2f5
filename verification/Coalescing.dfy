/** What the merge loop of `key_aggregator` does to a list of aligned points. */
module Coalescing {
  import opened Wrappers
  import opened Wrtstat
  import opened KeyAggregators

  function TotalCount(xs: seq<Info>): int {
    if xs == [] then 0 else TotalCount(xs[..|xs| - 1]) + xs[|xs| - 1].count
  }

  /** The count the points of one slot add up to. */
  function CountAt(xs: seq<Info>, slot: int): int {
    if xs == [] then 0
    else CountAt(xs[..|xs| - 1], slot) + if xs[|xs| - 1].ts == slot then xs[|xs| - 1].count else 0
  }

  ghost predicate HasSlot(xs: seq<Info>, slot: int) {
    exists i :: 0 <= i < |xs| && xs[i].ts == slot
  }

  lemma CountAbsorb(lib: Library, up: seq<Info>, d: Info, slot: int)
    requires lib.Contract()
    ensures TotalCount(Absorb(lib, up, d)) == TotalCount(up) + d.count
    ensures CountAt(Absorb(lib, up, d), slot) == CountAt(up, slot) + if d.ts == slot then d.count else 0
    ensures HasSlot(Absorb(lib, up, d), slot) <==> HasSlot(up, slot) || d.ts == slot
    ensures Absorb(lib, up, d) != [] && Absorb(lib, up, d)[|Absorb(lib, up, d)| - 1].ts == d.ts
  {
    var r := Absorb(lib, up, d);
    if up == [] || up[|up| - 1].ts != d.ts {
      assert r[..|r| - 1] == up;
      assert d.ts == slot ==> r[|up|].ts == slot;
      assert forall i :: 0 <= i < |up| ==> r[i] == up[i];
    } else {
      assert r[..|r| - 1] == up[..|up| - 1];
      assert forall i :: 0 <= i < |up| ==> r[i].ts == up[i].ts;
    }
  }

  lemma {:induction false} CoalesceCounts(lib: Library, xs: seq<Info>, slot: int)
    requires lib.Contract()
    ensures TotalCount(Coalesce(lib, xs)) == TotalCount(xs)
    ensures CountAt(Coalesce(lib, xs), slot) == CountAt(xs, slot)
  {
    if xs != [] {
      var ys, d := xs[..|xs| - 1], xs[|xs| - 1];
      CoalesceCounts(lib, ys, slot);
      CountAbsorb(lib, Coalesce(lib, ys), d, slot);
    }
  }

  lemma {:induction false} CoalesceSlots(lib: Library, xs: seq<Info>, slot: int)
    requires lib.Contract()
    ensures HasSlot(Coalesce(lib, xs), slot) <==> HasSlot(xs, slot)
    ensures |Coalesce(lib, xs)| == 0 <==> xs == []
    ensures xs != [] ==> Coalesce(lib, xs)[|Coalesce(lib, xs)| - 1].ts == xs[|xs| - 1].ts
  {
    if xs != [] {
      var ys, d := xs[..|xs| - 1], xs[|xs| - 1];
      CoalesceSlots(lib, ys, slot);
      CountAbsorb(lib, Coalesce(lib, ys), d, slot);
      assert forall i :: 0 <= i < |ys| ==> xs[i] == ys[i];
      assert xs[|ys|] == d;
    }
  }

  /** Coalescing keeps the total count and the count of every slot, adds no slot and loses
      none, and ends in the slot of the last point. */
  lemma CoalesceConserves(lib: Library, xs: seq<Info>, slot: int)
    requires lib.Contract()
    ensures TotalCount(Coalesce(lib, xs)) == TotalCount(xs)
    ensures CountAt(Coalesce(lib, xs), slot) == CountAt(xs, slot)
    ensures HasSlot(Coalesce(lib, xs), slot) <==> HasSlot(xs, slot)
    ensures |Coalesce(lib, xs)| == 0 <==> xs == []
    ensures xs != [] ==> Coalesce(lib, xs)[|Coalesce(lib, xs)| - 1].ts == xs[|xs| - 1].ts
  {
    CoalesceCounts(lib, xs, slot);
    CoalesceSlots(lib, xs, slot);
  }

  /** No two neighbours of the output share a slot. */
  lemma {:induction false} CoalesceSeparates(lib: Library, xs: seq<Info>)
    requires lib.Contract()
    ensures forall i :: 0 < i < |Coalesce(lib, xs)| ==> Coalesce(lib, xs)[i - 1].ts != Coalesce(lib, xs)[i].ts
  {
    if xs != [] {
      CoalesceSeparates(lib, xs[..|xs| - 1]);
    }
  }

  ghost predicate Nondecreasing(xs: seq<Info>) {
    forall i, j :: 0 <= i < j < |xs| ==> xs[i].ts <= xs[j].ts
  }

  ghost predicate Increasing(xs: seq<Info>) {
    forall i, j :: 0 <= i < j < |xs| ==> xs[i].ts < xs[j].ts
  }

  ghost predicate DistinctSlots(xs: seq<Info>) {
    forall i, j :: 0 <= i < j < |xs| ==> xs[i].ts != xs[j].ts
  }

  /** Time-sorted input: the output slots are aligned and strictly increasing. */
  lemma SortedMergeIncreases(lib: Library, data: seq<Info>)
    requires lib.Contract() && Nondecreasing(data)
    ensures Increasing(Coalesce(lib, Aligned(lib, data)))
    ensures forall i :: 0 <= i < |Coalesce(lib, Aligned(lib, data))| ==>
                          lib.align(Coalesce(lib, Aligned(lib, data))[i].ts) == Coalesce(lib, Aligned(lib, data))[i].ts
  {
    var xs := Aligned(lib, data);
    assert Nondecreasing(xs) by {
      forall i, j | 0 <= i < j < |xs| ensures xs[i].ts <= xs[j].ts {
        assert data[i].ts <= data[j].ts;
        assert lib.align(data[i].ts) <= lib.align(data[j].ts);
      }
    }
    CoalesceIncreases(lib, xs);
    var up := Coalesce(lib, xs);
    forall i | 0 <= i < |up| ensures lib.align(up[i].ts) == up[i].ts {
      CoalesceConserves(lib, xs, up[i].ts);
      assert HasSlot(up, up[i].ts);
      var k :| 0 <= k < |xs| && xs[k].ts == up[i].ts;
      assert lib.align(lib.align(data[k].ts)) == lib.align(data[k].ts);
    }
  }

  lemma {:induction false} CoalesceIncreases(lib: Library, xs: seq<Info>)
    requires lib.Contract() && Nondecreasing(xs)
    ensures Increasing(Coalesce(lib, xs))
  {
    if xs != [] {
      var ys, d := xs[..|xs| - 1], xs[|xs| - 1];
      CoalesceIncreases(lib, ys);
      CoalesceConserves(lib, ys, 0);
      assert ys != [] ==> xs[|ys| - 1].ts <= d.ts;
      AbsorbIncreases(lib, Coalesce(lib, ys), d);
    }
  }

  lemma AbsorbIncreases(lib: Library, up: seq<Info>, d: Info)
    requires lib.Contract() && Increasing(up)
    requires up != [] ==> up[|up| - 1].ts <= d.ts
    ensures Increasing(Absorb(lib, up, d))
  {
    var r := Absorb(lib, up, d);
    assert up != [] && up[|up| - 1].ts == d.ts ==> forall i :: 0 <= i < |up| ==> r[i].ts == up[i].ts;
  }

  // ----- writing the coalesced points one after the other

  /** The point a series of `set` calls leaves in a slot: the last one written there. */
  function LastAt(xs: seq<Info>, slot: int): (r: Option<Info>)
    ensures r.Some? <==> HasSlot(xs, slot)
    ensures r.Some? ==> r.value.ts == slot && r.value in xs
  {
    if xs == [] then None
    else if xs[|xs| - 1].ts == slot then Some(xs[|xs| - 1])
    else
      assert forall i :: 0 <= i < |xs| - 1 ==> xs[i] == xs[..|xs| - 1][i];
      LastAt(xs[..|xs| - 1], slot)
  }

  /** A slot never comes back after another one. */
  ghost predicate Contiguous(xs: seq<Info>) {
    forall i, j, k :: 0 <= i < j < k < |xs| && xs[i].ts == xs[k].ts ==> xs[j].ts == xs[i].ts
  }

  lemma {:induction false} DistinctIffContiguous(lib: Library, xs: seq<Info>)
    requires lib.Contract()
    ensures DistinctSlots(Coalesce(lib, xs)) <==> Contiguous(xs)
  {
    if xs != [] {
      var ys, d := xs[..|xs| - 1], xs[|xs| - 1];
      var up := Coalesce(lib, ys);
      DistinctIffContiguous(lib, ys);
      CoalesceConserves(lib, ys, d.ts);
      ContiguousExtend(ys, d);
      DistinctAbsorb(lib, up, d);
      assert ys + [d] == xs;
    }
  }

  lemma ContiguousExtend(ys: seq<Info>, d: Info)
    ensures Contiguous(ys + [d]) <==>
            Contiguous(ys) && (HasSlot(ys, d.ts) ==> ys[|ys| - 1].ts == d.ts)
  {
    var xs := ys + [d];
    if Contiguous(xs) {
      forall i, j, k | 0 <= i < j < k < |ys| && ys[i].ts == ys[k].ts ensures ys[j].ts == ys[i].ts {
        assert xs[i].ts == xs[k].ts && xs[j] == ys[j];
      }
      if HasSlot(ys, d.ts) {
        var i :| 0 <= i < |ys| && ys[i].ts == d.ts;
        assert xs[i].ts == xs[|ys|].ts && xs[|ys| - 1] == ys[|ys| - 1];
      }
    }
    if Contiguous(ys) && (HasSlot(ys, d.ts) ==> ys[|ys| - 1].ts == d.ts) {
      forall i, j, k | 0 <= i < j < k < |xs| && xs[i].ts == xs[k].ts ensures xs[j].ts == xs[i].ts {
        if k == |ys| {
          assert ys[i].ts == d.ts;
          assert j == |ys| - 1 || (i < j < |ys| - 1 && ys[i].ts == ys[|ys| - 1].ts);
        } else {
          assert ys[i].ts == ys[k].ts && xs[j] == ys[j];
        }
      }
    }
  }

  lemma DistinctAbsorb(lib: Library, up: seq<Info>, d: Info)
    requires lib.Contract()
    ensures DistinctSlots(Absorb(lib, up, d)) <==>
            DistinctSlots(up) && (HasSlot(up, d.ts) ==> up[|up| - 1].ts == d.ts)
  {
    var r := Absorb(lib, up, d);
    if up == [] || up[|up| - 1].ts != d.ts {
      assert forall i :: 0 <= i < |up| ==> r[i] == up[i];
      if DistinctSlots(r) {
        forall i, j | 0 <= i < j < |up| ensures up[i].ts != up[j].ts { assert r[i].ts != r[j].ts; }
        forall i | 0 <= i < |up| ensures up[i].ts != d.ts { assert r[i].ts != r[|up|].ts; }
      }
    } else {
      assert forall i :: 0 <= i < |up| ==> r[i].ts == up[i].ts;
      if DistinctSlots(r) {
        forall i, j | 0 <= i < j < |up| ensures up[i].ts != up[j].ts { assert r[i].ts != r[j].ts; }
      }
    }
  }

  ghost predicate PositiveCounts(xs: seq<Info>) {
    forall i :: 0 <= i < |xs| ==> xs[i].count > 0
  }

  lemma {:induction false} CoalescePositive(lib: Library, xs: seq<Info>)
    requires lib.Contract() && PositiveCounts(xs)
    ensures PositiveCounts(Coalesce(lib, xs))
  {
    if xs != [] {
      CoalescePositive(lib, xs[..|xs| - 1]);
    }
  }

  /** With distinct slots the last point of a slot is all of it ... */
  lemma {:induction false} DistinctLastIsAll(up: seq<Info>, slot: int)
    requires DistinctSlots(up)
    ensures HasSlot(up, slot) ==> LastAt(up, slot).value.count == CountAt(up, slot)
    ensures !HasSlot(up, slot) ==> CountAt(up, slot) == 0
  {
    if up != [] {
      var rest := up[..|up| - 1];
      DistinctLastIsAll(rest, slot);
      assert forall i :: 0 <= i < |rest| ==> rest[i] == up[i];
      assert up[|rest|] == up[|up| - 1];
    }
  }

  lemma {:induction false} CountNotNegative(up: seq<Info>, slot: int)
    requires PositiveCounts(up)
    ensures CountAt(up, slot) >= 0
    ensures HasSlot(up, slot) ==> CountAt(up, slot) > 0
    ensures HasSlot(up, slot) ==> LastAt(up, slot).value.count <= CountAt(up, slot)
  {
    if up != [] {
      var rest := up[..|up| - 1];
      CountNotNegative(rest, slot);
      assert forall i :: 0 <= i < |rest| ==> rest[i] == up[i];
    }
  }

  /** ... and with positive counts a repeated slot loses the count of its earlier points. */
  lemma {:induction false} RepeatedLastIsLess(up: seq<Info>, i: nat, j: nat)
    requires PositiveCounts(up) && i < j < |up| && up[i].ts == up[j].ts
    ensures LastAt(up, up[i].ts).value.count < CountAt(up, up[i].ts)
  {
    var slot, rest := up[i].ts, up[..|up| - 1];
    if up[|up| - 1].ts == slot {
      CountNotNegative(rest, slot);
      assert rest[i].ts == slot;
    } else {
      assert rest[i] == up[i] && rest[j] == up[j];
      RepeatedLastIsLess(rest, i, j);
    }
  }

  /** Every slot ends up with the count of all its input points exactly when no slot comes back
      after another one. */
  lemma MergeStoresAllIff(lib: Library, xs: seq<Info>)
    requires lib.Contract() && PositiveCounts(xs)
    ensures (forall slot :: HasSlot(xs, slot) ==>
                              LastAt(Coalesce(lib, xs), slot).Some?
                              && LastAt(Coalesce(lib, xs), slot).value.count == CountAt(xs, slot))
            <==> Contiguous(xs)
  {
    var up := Coalesce(lib, xs);
    CoalescePositive(lib, xs);
    DistinctIffContiguous(lib, xs);
    forall slot ensures HasSlot(xs, slot) ==> HasSlot(up, slot) && CountAt(up, slot) == CountAt(xs, slot) {
      CoalesceConserves(lib, xs, slot);
    }
    if Contiguous(xs) {
      forall slot | HasSlot(xs, slot) ensures LastAt(up, slot).Some? && LastAt(up, slot).value.count == CountAt(xs, slot) {
        DistinctLastIsAll(up, slot);
      }
    } else {
      var i, j :| 0 <= i < j < |up| && up[i].ts == up[j].ts;
      RepeatedLastIsLess(up, i, j);
      CoalesceConserves(lib, xs, up[i].ts);
      assert HasSlot(up, up[i].ts);
      assert HasSlot(xs, up[i].ts);
    }
  }

  lemma SortedIsContiguous(lib: Library, data: seq<Info>)
    requires lib.Contract() && Nondecreasing(data)
    ensures Contiguous(Aligned(lib, data))
  {
    var xs := Aligned(lib, data);
    forall i, j | 0 <= i < j < |xs| ensures xs[i].ts <= xs[j].ts {
      assert data[i].ts <= data[j].ts;
      assert lib.align(data[i].ts) <= lib.align(data[j].ts);
    }
  }

  /** Of three points in slots p, q, p the last write to p leaves out the first. */
  lemma RepeatedSlot(lib: Library, p: Info, q: Info)
    requires p.ts != q.ts
    ensures Coalesce(lib, [p, q, p]) == [p, q, p]
    ensures CountAt([p, q, p], p.ts) == p.count + p.count
    ensures LastAt([p, q, p], p.ts) == Some(p)
  {
    assert [p, q, p][..2] == [p, q] && [p, q][..1] == [p] && [p][..0] == [];
    assert CountAt([p], p.ts) == p.count && CountAt([p, q], p.ts) == p.count;
    assert Coalesce(lib, [p]) == [p] && Coalesce(lib, [p, q]) == [p, q];
  }

  // ----- what is stored in a slot

  /** The first point of a slot, and the later ones added to it in order. */
  function SlotSum(lib: Library, xs: seq<Info>, slot: int): Option<Info> {
    if xs == [] then None
    else
      var before, d := SlotSum(lib, xs[..|xs| - 1], slot), xs[|xs| - 1];
      if d.ts != slot then before else if before.None? then Some(d) else Some(lib.plus(before.value, d))
  }

  /** The same for the last block of neighbours in the slot. */
  function LastBlockSum(lib: Library, xs: seq<Info>, slot: int): Option<Info> {
    if xs == [] then None
    else
      var rest, d := xs[..|xs| - 1], xs[|xs| - 1];
      var before := LastBlockSum(lib, rest, slot);
      if d.ts != slot then before
      else if rest != [] && rest[|rest| - 1].ts == slot && before.Some? then Some(lib.plus(before.value, d))
      else Some(d)
  }

  /** For any list, the last point written to a slot is the sum of the last block in it. */
  lemma {:induction false} LastIsBlockSum(lib: Library, xs: seq<Info>, slot: int)
    requires lib.Contract()
    ensures LastAt(Coalesce(lib, xs), slot) == LastBlockSum(lib, xs, slot)
  {
    if xs != [] {
      var ys, d := xs[..|xs| - 1], xs[|xs| - 1];
      LastIsBlockSum(lib, ys, slot);
      CoalesceConserves(lib, ys, slot);
      LastAbsorb(lib, Coalesce(lib, ys), d, slot);
    }
  }

  lemma LastAbsorb(lib: Library, up: seq<Info>, d: Info, slot: int)
    requires lib.Contract()
    ensures LastAt(Absorb(lib, up, d), slot) ==
            if d.ts != slot then LastAt(up, slot)
            else if up != [] && up[|up| - 1].ts == slot then Some(lib.plus(up[|up| - 1], d))
            else Some(d)
  {
    var r := Absorb(lib, up, d);
    if up == [] || up[|up| - 1].ts != d.ts {
      assert r[..|r| - 1] == up;
    } else {
      assert r[..|r| - 1] == up[..|up| - 1];
    }
  }

  lemma {:induction false} SlotSumSome(lib: Library, xs: seq<Info>, slot: int)
    ensures SlotSum(lib, xs, slot).Some? <==> HasSlot(xs, slot)
  {
    if xs != [] {
      SlotSumSome(lib, xs[..|xs| - 1], slot);
      assert xs == xs[..|xs| - 1] + [xs[|xs| - 1]];
    }
  }

  /** When no slot comes back after another one, that is the sum of the whole slot. */
  lemma {:induction false} ContiguousBlockSum(lib: Library, xs: seq<Info>, slot: int)
    requires Contiguous(xs)
    ensures LastBlockSum(lib, xs, slot) == SlotSum(lib, xs, slot)
  {
    if xs != [] {
      var ys, d := xs[..|xs| - 1], xs[|xs| - 1];
      assert xs == ys + [d];
      ContiguousExtend(ys, d);
      ContiguousBlockSum(lib, ys, slot);
      SlotSumSome(lib, ys, slot);
    }
  }

  /** So for such a list the last point written to a slot is its sum. */
  lemma LastIsSlotSum(lib: Library, xs: seq<Info>, slot: int)
    requires lib.Contract() && Contiguous(xs)
    ensures LastAt(Coalesce(lib, xs), slot) == SlotSum(lib, xs, slot)
  {
    LastIsBlockSum(lib, xs, slot);
    ContiguousBlockSum(lib, xs, slot);
  }
}
