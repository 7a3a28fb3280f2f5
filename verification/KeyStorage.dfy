/** The key records on disk: `key_rocksdb`, one ordered map from name to record, and the
    batched load of `key_storage`. */
module KeyStorages {
  import opened Wrappers
  import opened StoredKeys
  import Names

  datatype StoredName = StoredName(name: string, key: StoredKey)

  /** The records in key order. */
  function Records(m: map<string, StoredKey>): (r: seq<StoredName>)
    ensures |r| == |Names.Sorted(m.Keys)|
    ensures forall i :: 0 <= i < |r| ==> r[i].name == Names.Sorted(m.Keys)[i]
    ensures forall i :: 0 <= i < |r| ==> r[i].name in m && r[i].key == m[r[i].name]
  {
    var names := Names.Sorted(m.Keys);
    assert forall i :: 0 <= i < |names| ==> names[i] in names;
    seq(|names|, i requires 0 <= i < |names| => StoredName(names[i], m[names[i]]))
  }

  /** Every record is listed ... */
  lemma RecordOf(m: map<string, StoredKey>, n: string) returns (i: nat)
    requires n in m
    ensures i < |Records(m)| && Records(m)[i].name == n
  {
    var names := Names.Sorted(m.Keys);
    assert n in names;
    i :| 0 <= i < |names| && names[i] == n;
  }

  /** ... and once. */
  lemma RecordsDistinct(m: map<string, StoredKey>)
    ensures |Records(m)| == |m|
    ensures forall i, j :: 0 <= i < j < |Records(m)| ==> Records(m)[i].name != Records(m)[j].name
  {
    Names.SortedDistinct(m.Keys);
    assert |m.Keys| == |m|;
  }

  function Flatten<T>(batches: seq<seq<T>>): seq<T> {
    if batches == [] then [] else Flatten(batches[..|batches| - 1]) + batches[|batches| - 1]
  }

  /** Full batches only, except that the last one may be shorter; none is empty. */
  ghost predicate WellBatched<T>(batches: seq<seq<T>>, step: nat) {
    && (forall i :: 0 <= i < |batches| ==> 0 < |batches[i]| <= step)
    && (forall i :: 0 <= i < |batches| - 1 ==> |batches[i]| == step)
  }

  lemma {:induction false} FlattenLength<T>(batches: seq<seq<T>>, step: nat)
    requires forall i :: 0 <= i < |batches| ==> |batches[i]| == step
    ensures |Flatten(batches)| == |batches| * step
  {
    if batches != [] {
      FlattenLength(batches[..|batches| - 1], step);
      assert (|batches| - 1) * step + step == |batches| * step;
    }
  }

  /** Batching is determined by the records and the step: batch `i` is page `i`. */
  lemma {:induction false} BatchIsSlice<T>(batches: seq<seq<T>>, step: nat, i: nat)
    requires WellBatched(batches, step) && i < |batches|
    ensures i * step + |batches[i]| <= |Flatten(batches)|
    ensures Flatten(batches)[i * step..i * step + |batches[i]|] == batches[i]
  {
    var init := batches[..|batches| - 1];
    FlattenLength(init, step);
    if i < |batches| - 1 {
      BatchIsSlice(init, step, i);
      assert Flatten(batches)[..|Flatten(init)|] == Flatten(init);
    }
  }

  lemma FlattenAppend<T>(batches: seq<seq<T>>, data: seq<T>)
    ensures Flatten(batches + [data]) == Flatten(batches) + data
  {
    assert (batches + [data])[..|batches|] == batches;
  }

  /** The callback of `load`, over the records the iterator visits. */
  method Cut<T>(all: seq<T>, step: nat) returns (batches: seq<seq<T>>)
    requires step > 0
    ensures Flatten(batches) == all
    ensures WellBatched(batches, step)
  {
    var data: seq<T> := [];
    batches := [];
    for i := 0 to |all|
      invariant |data| < step
      invariant Flatten(batches) + data == all[..i]
      invariant forall j :: 0 <= j < |batches| ==> |batches[j]| == step
    {
      data := data + [all[i]];
      assert Flatten(batches) + data == all[..i + 1];
      if |data| == step {
        FlattenAppend(batches, data);
        batches, data := batches + [data], [];
      }
    }
    if data != [] {
      FlattenAppend(batches, data);
      batches := batches + [data];
    }
  }

  class KeyStorage {
    var records: map<string, StoredKey>

    constructor ()
      ensures records == map[]
    {
      records := map[];
    }

    method Set(name: string, data: StoredKey)
      modifies this
      ensures records == old(records)[name := data]
    {
      records := records[name := data];
    }

    method Get(name: string) returns (data: Option<StoredKey>)
      ensures data == if name in records then Some(records[name]) else None
    {
      data := if name in records then Some(records[name]) else None;
    }

    method Del(name: string)
      modifies this
      ensures records == old(records) - {name}
    {
      records := records - {name};
    }

    /** The batches the load handler is called with, in order. */
    method Load(step: nat) returns (batches: seq<seq<StoredName>>)
      ensures Flatten(batches) == Records(records)
      ensures WellBatched(batches, if step == 0 then 16 else step)
    {
      batches := Cut(Records(records), if step == 0 then 16 else step);
    }
  }
}
