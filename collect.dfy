/** Distinct-value collection (`RDFUpdate.getDistinctValues`): for every
    categorical feature index, the set of strings seen at that index in any
    record. Each partition fills its own map of sets; the partition maps are
    then reduced pairwise by per-key union. */
module Collect {
  import opened Wrappers
  import opened InputSchema

  /** A parsed input line: its delimited fields. */
  type Record = seq<string>

  /** One accumulator per partition, keyed by categorical index. */
  type ValueSets = map<nat, set<string>>

  datatype CollectError =
    | FieldMissing    // `datum[i]` past the end of a record: ArrayIndexOutOfBoundsException
    | NoPartitions    // `reduce` over an empty collection: UnsupportedOperationException

  // ---------------------------------------------------------------------
  // Specification

  /** The key set of an accumulator built from an index list. */
  function IndexSet(indices: seq<nat>): set<nat>
  {
    set k | k in indices
  }

  /** Every record is long enough to be read at every key. */
  predicate Covers(keys: set<nat>, records: seq<Record>)
  {
    forall r, k :: r in records && k in keys ==> k < |r|
  }

  /** The strings found at index `k` across `records`. */
  function ValuesAt(records: seq<Record>, k: nat): set<string>
  {
    set r | r in records && k < |r| :: r[k]
  }

  /** The expected accumulator for `records`: each key maps to the strings
      found at that index. */
  function PartitionValues(keys: set<nat>, records: seq<Record>): ValueSets
  {
    map k | k in keys :: ValuesAt(records, k)
  }

  /** The reduce function: `v1` keeps its keys and each set grows by the
      other map's set for the same key. */
  function Merge(v1: ValueSets, v2: ValueSets): ValueSets
    requires v1.Keys <= v2.Keys
  {
    map k | k in v1 :: v1[k] + v2[k]
  }

  /** All records of all partitions, in partition order. */
  function Flatten(dataset: seq<seq<Record>>): seq<Record>
  {
    if |dataset| == 0 then [] else Flatten(dataset[..|dataset| - 1]) + dataset[|dataset| - 1]
  }

  /** The accumulators of the partitions, one per partition. */
  function PartitionMaps(keys: set<nat>, dataset: seq<seq<Record>>): (ms: seq<ValueSets>)
    ensures |ms| == |dataset|
    ensures forall i :: 0 <= i < |ms| ==> ms[i] == PartitionValues(keys, dataset[i])
  {
    seq(|dataset|, i requires 0 <= i < |dataset| => PartitionValues(keys, dataset[i]))
  }

  /** Reducing a non-empty sequence of accumulators that share one key set,
      left to right. */
  function MergeAll(keys: set<nat>, ms: seq<ValueSets>): (m: ValueSets)
    requires |ms| > 0
    requires forall i :: 0 <= i < |ms| ==> ms[i].Keys == keys
    ensures m.Keys == keys
  {
    if |ms| == 1 then ms[0] else Merge(MergeAll(keys, ms[..|ms| - 1]), ms[|ms| - 1])
  }

  // ---------------------------------------------------------------------
  // Properties of the merge and of the fold

  lemma MergeKeepsKeys(v1: ValueSets, v2: ValueSets)
    requires v1.Keys <= v2.Keys
    ensures Merge(v1, v2).Keys == v1.Keys
    ensures forall k :: k in v1 ==> v1[k] <= Merge(v1, v2)[k] && v2[k] <= Merge(v1, v2)[k]
  {
  }

  lemma MergeCommutative(v1: ValueSets, v2: ValueSets)
    requires v1.Keys == v2.Keys
    ensures Merge(v1, v2) == Merge(v2, v1)
  {
    forall k | k in v1 ensures Merge(v1, v2)[k] == Merge(v2, v1)[k] {
    }
  }

  lemma MergeAssociative(v1: ValueSets, v2: ValueSets, v3: ValueSets)
    requires v1.Keys == v2.Keys == v3.Keys
    ensures Merge(Merge(v1, v2), v3) == Merge(v1, Merge(v2, v3))
  {
    forall k | k in v1 ensures Merge(Merge(v1, v2), v3)[k] == Merge(v1, Merge(v2, v3))[k] {
    }
  }

  /** Accumulating two runs of records separately and merging gives the
      accumulator of the concatenated run. */
  lemma PartitionValuesAppend(keys: set<nat>, a: seq<Record>, b: seq<Record>)
    ensures Merge(PartitionValues(keys, a), PartitionValues(keys, b)) == PartitionValues(keys, a + b)
  {
    forall k | k in keys
      ensures ValuesAt(a, k) + ValuesAt(b, k) == ValuesAt(a + b, k)
    {
      assert forall r :: r in a + b <==> r in a || r in b;
    }
  }

  /** The accumulator depends only on which records occur, not on their
      order or multiplicity. */
  lemma PartitionValuesOfSameRecords(keys: set<nat>, a: seq<Record>, b: seq<Record>)
    requires forall r :: r in a <==> r in b
    ensures PartitionValues(keys, a) == PartitionValues(keys, b)
  {
    forall k | k in keys ensures ValuesAt(a, k) == ValuesAt(b, k) {
    }
  }

  lemma {:induction false} CoversAppend(keys: set<nat>, a: seq<Record>, b: seq<Record>)
    ensures Covers(keys, a + b) <==> Covers(keys, a) && Covers(keys, b)
  {
  }

  /** Reducing the partition accumulators yields the accumulator of all the
      records, however the records were split into partitions. */
  lemma {:induction false} MergeAllPartitions(keys: set<nat>, dataset: seq<seq<Record>>)
    requires |dataset| > 0
    ensures MergeAll(keys, PartitionMaps(keys, dataset)) == PartitionValues(keys, Flatten(dataset))
  {
    var n := |dataset|;
    var ms := PartitionMaps(keys, dataset);
    if n == 1 {
      assert dataset[..0] == [];
      assert Flatten(dataset) == Flatten([]) + dataset[0] == dataset[0];
    } else {
      var prefix := dataset[..n - 1];
      MergeAllPartitions(keys, prefix);
      assert ms[..n - 1] == PartitionMaps(keys, prefix);
      PartitionValuesAppend(keys, Flatten(prefix), dataset[n - 1]);
    }
  }

  /** Two partitionings of the same records, reduced in any partition order,
      produce the same distinct-value sets. */
  lemma PartitioningIrrelevant(keys: set<nat>, d1: seq<seq<Record>>, d2: seq<seq<Record>>)
    requires |d1| > 0 && |d2| > 0
    requires forall r :: r in Flatten(d1) <==> r in Flatten(d2)
    ensures MergeAll(keys, PartitionMaps(keys, d1)) == MergeAll(keys, PartitionMaps(keys, d2))
  {
    MergeAllPartitions(keys, d1);
    MergeAllPartitions(keys, d2);
    PartitionValuesOfSameRecords(keys, Flatten(d1), Flatten(d2));
  }

  // ---------------------------------------------------------------------
  // Implementation

  /** Lines 149-154: the categorical indices, in ascending order. */
  method CategoricalIndices(schema: Schema) returns (indices: seq<nat>)
    ensures forall i :: i in indices <==> i in CategoricalSet(schema)
    ensures forall j, l :: 0 <= j < l < |indices| ==> indices[j] < indices[l]
  {
    indices := [];
    var i := 0;
    while i < schema.numFeatures
      invariant i <= schema.numFeatures
      invariant forall x :: x in indices <==> x < i && x in schema.categorical
      invariant forall j, l :: 0 <= j < l < |indices| ==> indices[j] < indices[l]
      invariant forall j :: 0 <= j < |indices| ==> indices[j] < i
    {
      if i in schema.categorical {
        indices := indices + [i];
      }
      i := i + 1;
    }
  }

  /** A partition's map from categorical index to the strings seen there,
      updated in place as records are read. */
  class CategoryValueSets {
    var sets: ValueSets

    /** Lines 160-163: one empty set per categorical index. */
    constructor (indices: seq<nat>)
      ensures sets == PartitionValues(IndexSet(indices), [])
    {
      sets := map k | k in indices :: {};
      forall k | k in indices ensures ValuesAt([], k) == {} {
      }
    }

    /** Lines 166-168: add the datum's field at every key. A key past the end
        of the datum throws; the keys already visited in that case (hash
        order) are left unspecified. */
    method Add(datum: Record) returns (ok: bool)
      modifies this
      ensures sets.Keys == old(sets.Keys)
      ensures ok <==> Covers(old(sets.Keys), [datum])
      ensures ok ==> sets == Merge(old(sets), PartitionValues(old(sets.Keys), [datum]))
    {
      ghost var before := sets;
      var todo := sets.Keys;
      while todo != {}
        invariant todo <= before.Keys && sets.Keys == before.Keys
        invariant forall k :: k in todo ==> sets[k] == before[k]
        invariant forall k :: k in before.Keys - todo ==> k < |datum| && sets[k] == before[k] + {datum[k]}
        decreases todo
      {
        var k :| k in todo;
        if k >= |datum| {
          return false;
        }
        sets := sets[k := sets[k] + {datum[k]}];
        todo := todo - {k};
      }
      ok := true;
      forall k | k in before.Keys ensures ValuesAt([datum], k) == {datum[k]} {
        assert datum in [datum];
        assert forall r :: r in [datum] ==> r == datum;
      }
    }

    /** Lines 179-182: the reduce step. Each of this map's sets absorbs the
        other map's set for the same key; the key set is unchanged. The other
        map must hold every key of this one (otherwise `v2.get` is null and
        `addAll` throws); accumulators built from one index list always do. */
    method MergeFrom(other: CategoryValueSets)
      requires sets.Keys <= other.sets.Keys
      modifies this
      ensures sets == Merge(old(sets), old(other.sets))
    {
      ghost var before := sets;
      var theirs := other.sets;
      var todo := sets.Keys;
      while todo != {}
        invariant todo <= before.Keys && sets.Keys == before.Keys
        invariant forall k :: k in before.Keys ==>
          sets[k] == if k in todo then before[k] else before[k] + theirs[k]
        decreases todo
      {
        var k :| k in todo;
        sets := sets[k := sets[k] + theirs[k]];
        todo := todo - {k};
      }
    }
  }

  /** Lines 159-171: the accumulator of one partition, visiting each record
      once. */
  method CollectPartition(indices: seq<nat>, partition: seq<Record>)
    returns (r: Result<CategoryValueSets, CollectError>)
    ensures r.Success? <==> Covers(IndexSet(indices), partition)
    ensures r.Failure? ==> r.error == FieldMissing
    ensures r.Success? ==> fresh(r.value)
    ensures r.Success? ==> r.value.sets == PartitionValues(IndexSet(indices), partition)
  {
    ghost var keys := IndexSet(indices);
    var acc := new CategoryValueSets(indices);
    var i := 0;
    while i < |partition|
      invariant i <= |partition|
      invariant acc.sets == PartitionValues(keys, partition[..i])
      invariant Covers(keys, partition[..i])
    {
      assert acc.sets.Keys == keys;
      var ok := acc.Add(partition[i]);
      if !ok {
        assert partition[i] in partition;
        return Failure(FieldMissing);
      }
      RecordStep(keys, partition, i);
      i := i + 1;
    }
    assert partition[..i] == partition;
    return Success(acc);
  }

  /** One more record read: the accumulator grows by that record's fields. */
  lemma RecordStep(keys: set<nat>, records: seq<Record>, i: nat)
    requires i < |records|
    requires Covers(keys, records[..i]) && Covers(keys, [records[i]])
    ensures Covers(keys, records[..i + 1])
    ensures Merge(PartitionValues(keys, records[..i]), PartitionValues(keys, [records[i]]))
         == PartitionValues(keys, records[..i + 1])
  {
    assert records[..i + 1] == records[..i] + [records[i]];
    CoversAppend(keys, records[..i], [records[i]]);
    PartitionValuesAppend(keys, records[..i], [records[i]]);
  }

  /** Lines 148-185: the distinct strings at each categorical index over all
      partitions. Partitions are accumulated separately and reduced into the
      first one, left to right. */
  method GetDistinctValues(schema: Schema, dataset: seq<seq<Record>>)
    returns (r: Result<ValueSets, CollectError>)
    ensures r.Success? <==> |dataset| > 0 && Covers(CategoricalSet(schema), Flatten(dataset))
    ensures |dataset| == 0 ==> r == Failure(NoPartitions)
    ensures |dataset| > 0 && !Covers(CategoricalSet(schema), Flatten(dataset)) ==> r == Failure(FieldMissing)
    ensures r.Success? ==> r.value == PartitionValues(CategoricalSet(schema), Flatten(dataset))
  {
    var indices := CategoricalIndices(schema);
    ghost var keys := CategoricalSet(schema);
    assert IndexSet(indices) == keys;
    if |dataset| == 0 {
      return Failure(NoPartitions);
    }
    var first := CollectPartition(indices, dataset[0]);
    assert Flatten(dataset[..1]) == Flatten([]) + dataset[0] == dataset[0];
    if first.Failure? {
      NotCoveredPrefix(keys, dataset, 1);
      return Failure(FieldMissing);
    }
    var acc := first.value;
    var i := 1;
    while i < |dataset|
      invariant 1 <= i <= |dataset|
      invariant fresh(acc)
      invariant acc.sets == PartitionValues(keys, Flatten(dataset[..i]))
      invariant Covers(keys, Flatten(dataset[..i]))
    {
      var part := CollectPartition(indices, dataset[i]);
      assert dataset[..i + 1][..i] == dataset[..i];
      assert Flatten(dataset[..i + 1]) == Flatten(dataset[..i]) + dataset[i];
      CoversAppend(keys, Flatten(dataset[..i]), dataset[i]);
      if part.Failure? {
        NotCoveredPrefix(keys, dataset, i + 1);
        return Failure(FieldMissing);
      }
      acc.MergeFrom(part.value);
      PartitionValuesAppend(keys, Flatten(dataset[..i]), dataset[i]);
      i := i + 1;
    }
    assert dataset[..i] == dataset;
    return Success(acc.sets);
  }

  /** A record that is too short anywhere in a prefix of the partitions is
      too short in the whole dataset. */
  lemma {:induction false} NotCoveredPrefix(keys: set<nat>, dataset: seq<seq<Record>>, n: nat)
    requires n <= |dataset|
    requires !Covers(keys, Flatten(dataset[..n]))
    ensures !Covers(keys, Flatten(dataset))
  {
    if n < |dataset| {
      var m := |dataset|;
      assert dataset[..m - 1][..n] == dataset[..n];
      NotCoveredPrefix(keys, dataset[..m - 1], n);
      CoversAppend(keys, Flatten(dataset[..m - 1]), dataset[m - 1]);
    } else {
      assert dataset[..n] == dataset;
    }
  }
}
