# Random-decision-forest update: categorical encoding and trainer dispatch

This project models the core of Oryx's `RDFUpdate`: the batch update
step that turns parsed, delimited training records into labelled points
for a random-forest trainer. Four pieces are modelled, each in its own module:

- **Distinct-value collection** (`Collect`). Each partition fills a map from
  every categorical feature index to the set of strings seen at that index.
  The map is a `CategoryValueSets` object updated in place. The partition
  maps are then reduced by per-key union: `MergeFrom` updates the first
  map's sets in place. Partitions are a `seq` and the reduce is a left fold.
  The lemmas show that the merge is associative and commutative, and that
  the result depends only on which records occur. It does not depend on how
  they are partitioned or in which order the partitions are merged.
- **Ordinal encoders** (`Ordinal`, `StringOrder`). The distinct values are
  copied into an array and sorted in place by an insertion sort under the
  order of `String.compareTo`. Each value is then mapped to its position.
  The specification is `Rank`: the code of `v` is the number of distinct
  values that sort before `v`. The lemmas prove that the encoder is a
  bijection onto `0 .. k-1`, that it preserves order, and that every
  iteration order of the set gives the same sorted list.
- **Record encoding** (`RecordEncoder`). Fields are visited in order.
  Categorical fields become their code and other fields go through
  `Double.parseDouble`, which is a parameter here. The target field becomes
  the label. The other fields fill a feature array of length n-1 and shift
  down one slot after the target. Every exception of the Java code is an
  error value: an empty record, an unknown category, a malformed number, a
  write past the end of the feature array, and the NaN label check.
- **Configuration and dispatch** (`Update`). The constructor checks
  `numTrees >= 1` and that a target feature exists. `buildModel` checks
  `maxSplitCandidates > 0` and `maxDepth > 0` before reading any data. It
  then builds the category-cardinality map and returns the trainer call it
  would make: a classifier call that carries the target's class count, or a
  regressor call that never looks at the target's encoder.

`Scenarios` works through a three-record example: colour codes
`{"blue": 0, "red": 1}`, answer codes `{"no": 0, "yes": 1}`, and the record `["red", "1.0", "yes"]` encoded as
label 1 with features `[1, 1.0]`.

Four behaviours of the code that are easy to miss:
- A record that never reaches its target index does not get as far as the
  "label not set" check. Its last field is written one slot past the end of
  the `n-1` feature array first, which throws. The NaN check fires only when
  a numeric target field parses to NaN (`LabelNotSetMeansNaNTarget`).
- A record is rejected in the collection pass only when it is too short for
  some categorical index. Record length is never compared with the schema:
  a record longer than the schema is accepted, and its extra fields are
  encoded as numeric features; a record shorter than the schema that still
  holds its target and every categorical index encodes to fewer than
  `numFeatures - 1` features (`["1.0", "2.0"]` with target 0 gives one).
- Encoding is lazy in Spark. Its errors appear when the trainer reads the
  points, which is after the classification branch has looked up the
  target's encoder. `BuildModel` keeps that order, and its contract names
  the error of each stage: an invalid hyperparameter, then a failed
  collection pass, then a non-categorical classification target, then an
  encoding error.
- The cardinality map handed to the trainer is keyed by column index, while
  a point's features are indexed by slot, which skips the target. For a
  categorical target, and for every categorical column after it, the key
  and the slot differ (`InfoKeysAreColumns`).

## Model

| member | source | states |
|---|---|---|
| `StringOrder.LessIrreflexive` | oryx-ml-mllib/src/main/java/com/cloudera/oryx/ml/mllib/rdf/RDFUpdate.java:189 | no string sorts before itself under `compareTo` |
| `StringOrder.LessAsymmetric` | oryx-ml-mllib/src/main/java/com/cloudera/oryx/ml/mllib/rdf/RDFUpdate.java:189 | if a sorts before b, b does not sort before a |
| `StringOrder.LessTransitive` | oryx-ml-mllib/src/main/java/com/cloudera/oryx/ml/mllib/rdf/RDFUpdate.java:189 | the string order is transitive |
| `StringOrder.LessConnected` | oryx-ml-mllib/src/main/java/com/cloudera/oryx/ml/mllib/rdf/RDFUpdate.java:189 | any two different strings are ordered, so sorting leaves no ties |
| `StringOrder.LessIsStrictTotalOrder` | oryx-ml-mllib/src/main/java/com/cloudera/oryx/ml/mllib/rdf/RDFUpdate.java:189 | the order used by the sort is a strict total order |
| `Collect.CategoricalIndices` | oryx-ml-mllib/src/main/java/com/cloudera/oryx/ml/mllib/rdf/RDFUpdate.java:149-154 | returns exactly the categorical indices below the feature count, in ascending order |
| `Collect.CategoryValueSets.constructor` | oryx-ml-mllib/src/main/java/com/cloudera/oryx/ml/mllib/rdf/RDFUpdate.java:160-163 | the accumulator has every categorical index as a key, each with an empty set, which is the accumulator of an empty partition |
| `Collect.CategoryValueSets.Add` | oryx-ml-mllib/src/main/java/com/cloudera/oryx/ml/mllib/rdf/RDFUpdate.java:165-168 | keeps the key set; succeeds exactly when the record has a field at every key; on success each key's set gains that record's field |
| `Collect.CategoryValueSets.MergeFrom` | oryx-ml-mllib/src/main/java/com/cloudera/oryx/ml/mllib/rdf/RDFUpdate.java:177-183 | updates this map in place to the per-key union with the other map, with its key set unchanged |
| `Collect.CollectPartition` | oryx-ml-mllib/src/main/java/com/cloudera/oryx/ml/mllib/rdf/RDFUpdate.java:159-171 | fails, with the missing-field error, exactly when some record is too short for some categorical index; otherwise returns a fresh accumulator whose keys are exactly the indices (even for an empty partition) and whose sets are exactly the strings at each index |
| `Collect.GetDistinctValues` | oryx-ml-mllib/src/main/java/com/cloudera/oryx/ml/mllib/rdf/RDFUpdate.java:148-185 | fails with the no-partitions error on zero partitions and with the missing-field error on a record too short anywhere; otherwise returns, per categorical index, exactly the strings at that index across all records of all partitions |
| `Collect.MergeKeepsKeys` | oryx-ml-mllib/src/main/java/com/cloudera/oryx/ml/mllib/rdf/RDFUpdate.java:179-182 | the merge keeps v1's keys, and each merged set contains both inputs' sets |
| `Collect.MergeCommutative` | oryx-ml-mllib/src/main/java/com/cloudera/oryx/ml/mllib/rdf/RDFUpdate.java:174-184 | for maps with equal key sets, merging in either order gives the same map |
| `Collect.MergeAssociative` | oryx-ml-mllib/src/main/java/com/cloudera/oryx/ml/mllib/rdf/RDFUpdate.java:174-184 | for maps with equal key sets, the pairing of merges does not matter |
| `Collect.PartitionValuesAppend` | oryx-ml-mllib/src/main/java/com/cloudera/oryx/ml/mllib/rdf/RDFUpdate.java:156-184 | accumulating two runs of records separately and merging equals accumulating their concatenation |
| `Collect.PartitionValuesOfSameRecords` | oryx-ml-mllib/src/main/java/com/cloudera/oryx/ml/mllib/rdf/RDFUpdate.java:156-184 | the accumulator depends only on which records occur, not on their order or repetition |
| `Collect.MergeAllPartitions` | oryx-ml-mllib/src/main/java/com/cloudera/oryx/ml/mllib/rdf/RDFUpdate.java:156-184 | reducing the per-partition accumulators gives the accumulator of all records |
| `Collect.PartitioningIrrelevant` | oryx-ml-mllib/src/main/java/com/cloudera/oryx/ml/mllib/rdf/RDFUpdate.java:156-184 | two partitionings of the same records, in any partition order, reduce to the same distinct-value sets |
| `Ordinal.CopyToArray` | oryx-ml-mllib/src/main/java/com/cloudera/oryx/ml/mllib/rdf/RDFUpdate.java:188 | the list copy holds every value of the set exactly once |
| `Ordinal.SortStrings` | oryx-ml-mllib/src/main/java/com/cloudera/oryx/ml/mllib/rdf/RDFUpdate.java:189 | sorts a duplicate-free array in place into strictly increasing order, as a permutation of its contents |
| `Ordinal.InsertNext` | oryx-ml-mllib/src/main/java/com/cloudera/oryx/ml/mllib/rdf/RDFUpdate.java:189 | one insertion step extends the sorted prefix `a[..i+1]` by one element, keeps the contents as a permutation and leaves `a[i+1..]` untouched |
| `Ordinal.SwapAdjacent` | oryx-ml-mllib/src/main/java/com/cloudera/oryx/ml/mllib/rdf/RDFUpdate.java:189 | exchanges two neighbouring list elements in place and changes nothing else |
| `Ordinal.AssignPositions` | oryx-ml-mllib/src/main/java/com/cloudera/oryx/ml/mllib/rdf/RDFUpdate.java:190-193 | the map's keys are exactly the list's values, and each value maps to its position in the list |
| `Ordinal.PositionsAreRanks` | oryx-ml-mllib/src/main/java/com/cloudera/oryx/ml/mllib/rdf/RDFUpdate.java:189-193 | mapping each value of a sorted list to its position gives the rank encoder of the list's values |
| `Ordinal.MapDistinctValues` | oryx-ml-mllib/src/main/java/com/cloudera/oryx/ml/mllib/rdf/RDFUpdate.java:187-195 | the map sends each distinct value to the number of distinct values that sort before it, whatever order the set yields its values in |
| `Ordinal.BuildEncoders` | oryx-ml-mllib/src/main/java/com/cloudera/oryx/ml/mllib/rdf/RDFUpdate.java:141-144 | one encoder per categorical index, each built from that index's distinct values |
| `Ordinal.RankOfSorted` | oryx-ml-mllib/src/main/java/com/cloudera/oryx/ml/mllib/rdf/RDFUpdate.java:189-193 | in a strictly sorted listing, a value's position equals its rank |
| `Ordinal.RankBelowCardinality` | oryx-ml-mllib/src/main/java/com/cloudera/oryx/ml/mllib/rdf/RDFUpdate.java:191-192 | every code is below the number of distinct values |
| `Ordinal.RankMonotone` | oryx-ml-mllib/src/main/java/com/cloudera/oryx/ml/mllib/rdf/RDFUpdate.java:188-192 | if v sorts before w, v's code is smaller than w's |
| `Ordinal.RankInjective` | oryx-ml-mllib/src/main/java/com/cloudera/oryx/ml/mllib/rdf/RDFUpdate.java:190-193 | different values get different codes |
| `Ordinal.EncoderIsBijection` | oryx-ml-mllib/src/main/java/com/cloudera/oryx/ml/mllib/rdf/RDFUpdate.java:187-195 | the encoder's keys are exactly the distinct values, its codes are exactly 0 .. k-1, and no two values share a code |
| `Ordinal.EncoderSize` | oryx-ml-mllib/src/main/java/com/cloudera/oryx/ml/mllib/rdf/RDFUpdate.java:190-194 | an encoder has one entry per distinct value |
| `Ordinal.SortedListingUnique` | oryx-ml-mllib/src/main/java/com/cloudera/oryx/ml/mllib/rdf/RDFUpdate.java:188-189 | two strictly sorted lists of the same values are equal, so the arrival order of values does not matter |
| `RecordEncoder.FirstFailure` | oryx-ml-mllib/src/main/java/com/cloudera/oryx/ml/mllib/rdf/RDFUpdate.java:208-215 | finds nothing exactly when every field from the start index on encodes; otherwise reports the error of a failing field |
| `RecordEncoder.EncodeRecord` | oryx-ml-mllib/src/main/java/com/cloudera/oryx/ml/mllib/rdf/RDFUpdate.java:204-225 | the array-filling loop produces exactly the specified outcome: the label, the shifted features, or the error of the first failing step |
| `RecordEncoder.EncodeAll` | oryx-ml-mllib/src/main/java/com/cloudera/oryx/ml/mllib/rdf/RDFUpdate.java:198-227 | succeeds exactly when every record encodes, with one point per record in order; a failure reports the error of some failing record |
| `RecordEncoder.EncodeSucceedsIff` | oryx-ml-mllib/src/main/java/com/cloudera/oryx/ml/mllib/rdf/RDFUpdate.java:205-223 | encoding succeeds exactly when the record is non-empty, reaches its target, every field encodes and the label is not NaN |
| `RecordEncoder.EncodedShape` | oryx-ml-mllib/src/main/java/com/cloudera/oryx/ml/mllib/rdf/RDFUpdate.java:205-221 | a record of n fields gives n-1 features; the label is the target field's value; field i lands in slot i before the target and in slot i-1 after it |
| `RecordEncoder.LabelNotSetMeansNaNTarget` | oryx-ml-mllib/src/main/java/com/cloudera/oryx/ml/mllib/rdf/RDFUpdate.java:206-223 | the NaN check fails only for a numeric target field that parses to NaN |
| `RecordEncoder.CollectedRecordHasNoUnknownCategory` | oryx-ml-mllib/src/main/java/com/cloudera/oryx/ml/mllib/rdf/RDFUpdate.java:213-215 | with encoders built from records that include this one, no categorical lookup fails |
| `Update.NewRDFUpdate` | oryx-ml-mllib/src/main/java/com/cloudera/oryx/ml/mllib/rdf/RDFUpdate.java:61-72 | construction succeeds exactly when numTrees >= 1 and a target feature exists, and a bad tree count is reported first |
| `Update.GetDistinctValueMap` | oryx-ml-mllib/src/main/java/com/cloudera/oryx/ml/mllib/rdf/RDFUpdate.java:139-146 | fails exactly when collection fails; otherwise has an encoder for exactly the categorical indices, each built from the strings seen at that index in the whole data |
| `Update.CategoryInfo` | oryx-ml-mllib/src/main/java/com/cloudera/oryx/ml/mllib/rdf/RDFUpdate.java:95-98 | maps each categorical index to the size of its encoder |
| `Update.EncoderSizesAreDistinctCounts` | oryx-ml-mllib/src/main/java/com/cloudera/oryx/ml/mllib/rdf/RDFUpdate.java:95-98 | each encoder's size is the number of distinct values collected at its index |
| `Update.NoUnknownCategoryInData` | oryx-ml-mllib/src/main/java/com/cloudera/oryx/ml/mllib/rdf/RDFUpdate.java:91-93 | after collection over the whole data, no record fails to encode on an unknown category |
| `Update.EncodersIndependentOfPartitioning` | oryx-ml-mllib/src/main/java/com/cloudera/oryx/ml/mllib/rdf/RDFUpdate.java:139-146 | two datasets holding the same records get the same encoders, however they are partitioned |
| `Update.BuildModel` | oryx-ml-mllib/src/main/java/com/cloudera/oryx/ml/mllib/rdf/RDFUpdate.java:80-123 | rejects non-positive maxSplitCandidates or maxDepth whatever the data; reports the hyperparameter error only for such values; then reports no partitions, a record too short for a categorical index, and a non-categorical classification target, each with its own error; once those stages pass, any failure is an encoding error that some record of the data produces; succeeds exactly when collection succeeds, a classification target is categorical and every record encodes; classifies exactly for a classification schema, with the number of distinct target values as class count; the cardinality map counts distinct values per categorical index; the arguments pass through; the points are the encoded records; never fails on an unknown category |
| `Scenarios.ColourCodes` | oryx-ml-mllib/src/main/java/com/cloudera/oryx/ml/mllib/rdf/RDFUpdate.java:187-195 | the values {"red", "blue"} are encoded as blue 0 and red 1 |
| `Scenarios.AnswerCodes` | oryx-ml-mllib/src/main/java/com/cloudera/oryx/ml/mllib/rdf/RDFUpdate.java:187-195 | the values {"yes", "no"} are encoded as no 0 and yes 1 |
| `Scenarios.EncodeExampleRecord` | oryx-ml-mllib/src/main/java/com/cloudera/oryx/ml/mllib/rdf/RDFUpdate.java:204-225 | the record ["red", "1.0", "yes"] with target 2 encodes to label 1 and features [1, 1.0] |
| `Scenarios.ExampleDistinctValues` | oryx-ml-mllib/src/main/java/com/cloudera/oryx/ml/mllib/rdf/RDFUpdate.java:148-185 | the collection pass over the three example records finds {"red", "blue"} at column 0 and {"yes", "no"} at column 2 |
| `Scenarios.ExampleEncoders` | oryx-ml-mllib/src/main/java/com/cloudera/oryx/ml/mllib/rdf/RDFUpdate.java:139-146 | the encoders built for the example are the colour codes at column 0 and the answer codes at column 2 |
| `Scenarios.InfoKeysAreColumns` | oryx-ml-mllib/src/main/java/com/cloudera/oryx/ml/mllib/rdf/RDFUpdate.java:95-98 | for the three example records, the encoders whose sizes form the cardinality map have the target column 2 as a key with two classes, while the encoded record `["red", "1.0", "yes"]` has only the feature slots 0 and 1 |

## Left out

- Spark: `map`, `mapPartitions`, `reduce` and the context are not modelled. Partitions are a sequence and the reduce is a left fold in partition order. Spark merges partition results in completion order; `PartitioningIrrelevant` and the merge lemmas cover every order.
- Laziness of `parsedToRatingRDD`: the encoded points are computed when `BuildModel` builds the trainer call. That is where Spark would compute them when the trainer reads them.
- `RandomForest.trainClassifier`, `trainRegressor` and `RandomForestModel`: the trainer is a foreign library. `BuildModel` returns the call it would make, a `TrainingCall` value.
- `RandomManager.getRandom().nextInt()`: global randomness. The seed is a 32-bit parameter.
- `Double.parseDouble` and `double` values: floating point is not modelled. Parsing is the parameter `parse`, and a double is NaN or an uninterpreted number. A code `(double) i` is the number `i`.
- `Config`, `HyperParams.fromConfig`, `getHyperParameterValues` and the `InputSchema` internals: these read configuration. The schema is a datatype holding the feature count, the categorical set, the optional target index and the classification flag. The hyperparameters are a typed record, so the `(Integer)` and `(String)` casts cannot fail.
- `MLFunctions.PARSE_FN`: the line splitter is external. The input is already split into records.
- PMML output, the `// TODO` that returns null, and `evaluate` returning 0: these are stubs in the source.
- `StringOrder.Less`: Dafny characters are Unicode scalar values, and Java compares UTF-16 code units. The two orders differ only between supplementary characters and characters in U+E000-U+FFFF.
- `Collect.CategoryValueSets.MergeFrom`: a second map missing one of the first map's keys makes `v2.get` return null, so `addAll` throws. This is a precondition here. Every accumulator is built from the same index list, so it always holds.
- `Collect.CategoryValueSets.Add`: when a record is too short, the state after the exception is left open except for its key set. Java has already updated the keys it visited before that one, in hash order.
- `Collect.GetDistinctValues`: a failure does not say which record was too short or at which index. Spark reports whichever task failed.
- Exceptions are error values: `IllegalArgumentException`, `NullPointerException`, `ArrayIndexOutOfBoundsException`, `NegativeArraySizeException`, `NumberFormatException`, `IllegalStateException` and Spark's empty-collection error. Logging is not modelled.
