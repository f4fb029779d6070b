/** The random-decision-forest batch update (`RDFUpdate`): configuration
    checks, and `buildModel`, which validates the hyperparameters, collects
    and encodes the categorical values, builds the category-cardinality map
    and hands everything to the classification or regression trainer. The
    trainer itself is not modelled: the result is the call that would be
    made. */
module Update {
  import opened Wrappers
  import opened InputSchema
  import opened Collect
  import opened Ordinal
  import opened RecordEncoder

  newtype int32 = x: int | -0x8000_0000 <= x < 0x8000_0000

  /** The configured update: `numTrees` and the input schema. */
  datatype RDFUpdate = RDFUpdate(numTrees: int, schema: Schema)

  datatype ConfigError =
    | NumTreesNotPositive  // `checkArgument(numTrees >= 1)`
    | NoTargetFeature      // `checkNotNull(inputSchema.getTargetFeature())`

  /** One hyperparameter combination: positions 0, 1 and 2 of the list that
      `buildModel` receives. */
  datatype HyperParameters = HyperParameters(maxSplitCandidates: int, maxDepth: int, impurity: string)

  /** The trainer call `buildModel` makes, with its arguments. */
  datatype TrainingCall =
    | TrainClassifier(input: seq<LabeledPoint>, numClasses: nat, categoricalFeaturesInfo: map<nat, nat>,
                      numTrees: nat, featureSubsetStrategy: string, impurity: string,
                      maxDepth: nat, maxBins: nat, seed: int32)
    | TrainRegressor(input: seq<LabeledPoint>, categoricalFeaturesInfo: map<nat, nat>,
                     numTrees: nat, featureSubsetStrategy: string, impurity: string,
                     maxDepth: nat, maxBins: nat, seed: int32)

  datatype BuildError =
    | InvalidHyperParameter        // `checkArgument` on maxSplitCandidates or maxDepth
    | CollectFailed(collect: CollectError)
    | TargetNotCategorical         // `distinctValueMaps.get(target)` is null
    | EncodeFailed(encode: EncodeError)

  /** What a successfully constructed update satisfies. */
  predicate Valid(u: RDFUpdate)
  {
    u.numTrees >= 1 && u.schema.target.Some?
  }

  /** Lines 61-72: the constructor's checks, in order. */
  function NewRDFUpdate(numTrees: int, schema: Schema): (r: Result<RDFUpdate, ConfigError>)
    ensures r.Success? <==> numTrees >= 1 && schema.target.Some?
    ensures numTrees < 1 ==> r == Failure(NumTreesNotPositive)
    ensures r.Success? ==> Valid(r.value) && r.value == RDFUpdate(numTrees, schema)
  {
    if numTrees < 1 then Failure(NumTreesNotPositive)
    else if schema.target.None? then Failure(NoTargetFeature)
    else Success(RDFUpdate(numTrees, schema))
  }

  /** The distinct values of the categorical features over the whole data. */
  function DistinctValues(schema: Schema, dataset: seq<seq<Record>>): map<nat, set<string>>
  {
    PartitionValues(CategoricalSet(schema), Flatten(dataset))
  }

  /** Lines 139-146: the distinct values of every categorical index, each
      turned into its encoder. */
  method GetDistinctValueMap(schema: Schema, dataset: seq<seq<Record>>)
    returns (r: Result<Encoders, CollectError>)
    ensures r.Success? <==> |dataset| > 0 && Covers(CategoricalSet(schema), Flatten(dataset))
    ensures |dataset| == 0 ==> r == Failure(NoPartitions)
    ensures |dataset| > 0 && !Covers(CategoricalSet(schema), Flatten(dataset)) ==> r == Failure(FieldMissing)
    ensures r.Success? ==> r.value.Keys == CategoricalSet(schema)
    ensures r.Success? ==> forall k :: k in r.value ==> r.value[k] == EncoderOf(ValuesAt(Flatten(dataset), k))
  {
    var distinct := GetDistinctValues(schema, dataset);
    if distinct.Failure? {
      return Failure(distinct.error);
    }
    var encoders := BuildEncoders(distinct.value);
    return Success(encoders);
  }

  /** Lines 95-98: each categorical index with the size of its encoder. */
  method CategoryInfo(encoders: Encoders) returns (info: map<nat, nat>)
    ensures info.Keys == encoders.Keys
    ensures forall k :: k in info ==> info[k] == |encoders[k]|
  {
    info := map[];
    var todo := encoders.Keys;
    while todo != {}
      invariant todo <= encoders.Keys
      invariant info.Keys == encoders.Keys - todo
      invariant forall k :: k in info ==> info[k] == |encoders[k]|
      decreases todo
    {
      var k :| k in todo;
      info := info[k := |encoders[k]|];
      todo := todo - {k};
    }
  }

  /** The category-cardinality map counts the distinct values seen at each
      categorical index. */
  lemma EncoderSizesAreDistinctCounts(distinctValues: map<nat, set<string>>)
    ensures forall k :: k in distinctValues ==> |EncodersOf(distinctValues)[k]| == |distinctValues[k]|
  {
    forall k | k in distinctValues ensures |EncodersOf(distinctValues)[k]| == |distinctValues[k]| {
      EncoderSize(distinctValues[k]);
    }
  }

  /** No record of the data fails to encode on an unknown category. */
  lemma NoUnknownCategoryInData(schema: Schema, dataset: seq<seq<Record>>, target: nat, parse: Parser)
    requires Covers(CategoricalSet(schema), Flatten(dataset))
    ensures forall i :: 0 <= i < |Flatten(dataset)| ==>
      var r := Encode(target, EncodersOf(DistinctValues(schema, dataset)), parse, Flatten(dataset)[i]);
      !r.Failure? || !r.error.UnknownCategory?
  {
  }

  /** The encoders depend only on which records the data holds, not on how
      they are split into partitions or in which order partitions arrive. */
  lemma EncodersIndependentOfPartitioning(schema: Schema, d1: seq<seq<Record>>, d2: seq<seq<Record>>)
    requires forall r :: r in Flatten(d1) <==> r in Flatten(d2)
    ensures EncodersOf(DistinctValues(schema, d1)) == EncodersOf(DistinctValues(schema, d2))
  {
    PartitionValuesOfSameRecords(CategoricalSet(schema), Flatten(d1), Flatten(d2));
  }

  /** Lines 80-123. Hyperparameters are checked before any pass over the
      data. The first pass collects the distinct categorical values; the
      encoded records are only produced when the trainer reads them, after
      the class count has been looked up. */
  method BuildModel(u: RDFUpdate, trainData: seq<seq<Record>>, hyper: HyperParameters,
                    parse: Parser, seed: int32)
    returns (r: Result<TrainingCall, BuildError>)
    requires Valid(u)
    ensures hyper.maxSplitCandidates <= 0 || hyper.maxDepth <= 0 ==> r == Failure(InvalidHyperParameter)
    ensures hyper.maxSplitCandidates > 0 && hyper.maxDepth > 0 && |trainData| == 0 ==>
      r == Failure(CollectFailed(NoPartitions))
    ensures (&& hyper.maxSplitCandidates > 0 && hyper.maxDepth > 0 && |trainData| > 0
             && !Covers(CategoricalSet(u.schema), Flatten(trainData)))
      ==> r == Failure(CollectFailed(FieldMissing))
    ensures (&& hyper.maxSplitCandidates > 0 && hyper.maxDepth > 0 && |trainData| > 0
             && Covers(CategoricalSet(u.schema), Flatten(trainData))
             && u.schema.classification && u.schema.target.value !in CategoricalSet(u.schema))
      ==> r == Failure(TargetNotCategorical)
    ensures r.Success? <==>
      && hyper.maxSplitCandidates > 0 && hyper.maxDepth > 0
      && |trainData| > 0 && Covers(CategoricalSet(u.schema), Flatten(trainData))
      && (u.schema.classification ==> u.schema.target.value in CategoricalSet(u.schema))
      && forall i :: 0 <= i < |Flatten(trainData)| ==>
           Encode(u.schema.target.value, EncodersOf(DistinctValues(u.schema, trainData)), parse,
                  Flatten(trainData)[i]).Success?
    ensures r == Failure(TargetNotCategorical) ==>
      u.schema.classification && u.schema.target.value !in CategoricalSet(u.schema)
    ensures r.Success? ==> (r.value.TrainClassifier? <==> u.schema.classification)
    ensures r.Success? && r.value.TrainClassifier? ==>
      var t := u.schema.target.value;
      t in CategoricalSet(u.schema) &&
      r.value.numClasses == |ValuesAt(Flatten(trainData), t)|
    ensures r.Success? ==>
      && r.value.categoricalFeaturesInfo.Keys == CategoricalSet(u.schema)
      && (forall k :: k in r.value.categoricalFeaturesInfo ==>
            r.value.categoricalFeaturesInfo[k] == |ValuesAt(Flatten(trainData), k)|)
      && r.value.numTrees == u.numTrees
      && r.value.featureSubsetStrategy == "auto"
      && r.value.impurity == hyper.impurity
      && r.value.maxDepth == hyper.maxDepth
      && r.value.maxBins == hyper.maxSplitCandidates
      && r.value.seed == seed
    ensures r.Success? ==>
      var encoders := EncodersOf(DistinctValues(u.schema, trainData));
      |r.value.input| == |Flatten(trainData)| &&
      forall i :: 0 <= i < |Flatten(trainData)| ==>
        Encode(u.schema.target.value, encoders, parse, Flatten(trainData)[i]) == Success(r.value.input[i])
    ensures r == Failure(InvalidHyperParameter) ==> hyper.maxSplitCandidates <= 0 || hyper.maxDepth <= 0
    ensures (&& hyper.maxSplitCandidates > 0 && hyper.maxDepth > 0 && |trainData| > 0
             && Covers(CategoricalSet(u.schema), Flatten(trainData))
             && (u.schema.classification ==> u.schema.target.value in CategoricalSet(u.schema)))
      ==> r.Success? || r.error.EncodeFailed?
    ensures r.Failure? && r.error.EncodeFailed? ==>
      exists i :: 0 <= i < |Flatten(trainData)| &&
        Encode(u.schema.target.value, EncodersOf(DistinctValues(u.schema, trainData)), parse,
               Flatten(trainData)[i]) == Failure(r.error.encode)
    ensures r.Failure? && r.error.EncodeFailed? ==> !r.error.encode.UnknownCategory?
  {
    if hyper.maxSplitCandidates <= 0 || hyper.maxDepth <= 0 {
      return Failure(InvalidHyperParameter);
    }
    var distinctValueMaps := GetDistinctValueMap(u.schema, trainData);
    if distinctValueMaps.Failure? {
      return Failure(CollectFailed(distinctValueMaps.error));
    }
    var encoders := distinctValueMaps.value;
    assert encoders == EncodersOf(DistinctValues(u.schema, trainData));
    var info := CategoryInfo(encoders);
    EncoderSizesAreDistinctCounts(DistinctValues(u.schema, trainData));
    var target := u.schema.target.value;
    var records := Flatten(trainData);
    NoUnknownCategoryInData(u.schema, trainData, target, parse);
    if u.schema.classification {
      if target !in encoders {
        return Failure(TargetNotCategorical);
      }
      var numClasses := |encoders[target]|;
      var points := EncodeAll(target, encoders, parse, records);
      if points.Failure? {
        return Failure(EncodeFailed(points.error));
      }
      return Success(TrainClassifier(points.value, numClasses, info, u.numTrees, "auto",
                                     hyper.impurity, hyper.maxDepth, hyper.maxSplitCandidates, seed));
    } else {
      var points := EncodeAll(target, encoders, parse, records);
      if points.Failure? {
        return Failure(EncodeFailed(points.error));
      }
      return Success(TrainRegressor(points.value, info, u.numTrees, "auto",
                                    hyper.impurity, hyper.maxDepth, hyper.maxSplitCandidates, seed));
    }
  }
}
