/** The read-only view of the input schema that the random-decision-forest
    update consults. The schema's own parsing of configuration is not part
    of this model; only the answers it gives are. */
module InputSchema {
  import opened Wrappers

  /** `numFeatures` fields per record; `isCategorical(i)` is `i in categorical`;
      `target` is the target feature's index, `None` when no target feature is
      configured (`getTargetFeature()` returns null); `classification` is
      `isClassification()`. */
  datatype Schema = Schema(
    numFeatures: nat,
    categorical: set<nat>,
    target: Option<nat>,
    classification: bool)

  /** The categorical feature indices the schema reports below `numFeatures`. */
  function CategoricalSet(schema: Schema): set<nat>
  {
    set i: nat | i < schema.numFeatures && i in schema.categorical
  }
}
