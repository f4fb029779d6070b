/** A worked example: three records with a categorical colour, a numeric
    measurement and a categorical yes/no target. */
module Scenarios {
  import opened Wrappers
  import opened InputSchema
  import opened Collect
  import opened StringOrder
  import opened Ordinal
  import opened RecordEncoder
  import opened Update

  /** Codes follow the sorted order of the values: "blue" before "red". */
  lemma ColourCodes()
    ensures EncoderOf({"red", "blue"}) == map["blue" := 0, "red" := 1]
  {
    assert !Less("red", "blue") && Less("blue", "red");
    LessIrreflexive("blue");
    LessIrreflexive("red");
    assert Smaller({"red", "blue"}, "blue") == {};
    assert Smaller({"red", "blue"}, "red") == {"blue"};
  }

  /** The record ["red", "1.0", "yes"] with target index 2 encodes to the
      label 1 ("yes" after "no") and the features [1, 1.0]. */
  lemma EncodeExampleRecord(parse: Parser)
    requires parse("1.0") == Some(Num(1.0))
    ensures Encode(2, map[0 := map["blue" := 0, "red" := 1], 2 := map["no" := 0, "yes" := 1]],
                   parse, ["red", "1.0", "yes"])
         == Success(LabeledPoint(Num(1.0), [Num(1.0), Num(1.0)]))
  {
    var encoders := map[0 := map["blue" := 0, "red" := 1], 2 := map["no" := 0, "yes" := 1]];
    var data := ["red", "1.0", "yes"];
    assert EncodeField(encoders, parse, data, 0) == Success(Num(1.0));
    assert EncodeField(encoders, parse, data, 1) == Success(Num(1.0));
    assert EncodeField(encoders, parse, data, 2) == Success(Num(1.0));
    assert FirstFailure(encoders, parse, data, 0) == None;
    var features := seq(2, j requires 0 <= j < 2 => EncodeField(encoders, parse, data, FieldOfSlot(2, j)).value);
    assert features[0] == Num(1.0) && features[1] == Num(1.0);
    assert features == [Num(1.0), Num(1.0)];
  }

  /** "no" sorts before "yes", so the target's codes are no 0 and yes 1. */
  lemma AnswerCodes()
    ensures EncoderOf({"yes", "no"}) == map["no" := 0, "yes" := 1]
  {
    assert !Less("yes", "no") && Less("no", "yes");
    LessIrreflexive("no");
    LessIrreflexive("yes");
    assert Smaller({"yes", "no"}, "no") == {};
    assert Smaller({"yes", "no"}, "yes") == {"no"};
  }

  /** The example's schema: colour (categorical), measurement (numeric) and
      answer (categorical target), for classification. */
  const ExampleSchema := Schema(3, {0, 2}, Some(2), true)

  /** The three example records, in one partition. */
  const ExampleData: seq<seq<Record>> :=
    [[["red", "1.0", "yes"], ["blue", "2.0", "no"], ["red", "3.0", "no"]]]

  /** The distinct values the collection pass finds in the example. */
  lemma ExampleDistinctValues()
    ensures DistinctValues(ExampleSchema, ExampleData) == map[0 := {"red", "blue"}, 2 := {"yes", "no"}]
  {
    var records := ExampleData[0];
    assert Flatten(ExampleData) == Flatten(ExampleData[..0]) + records == records;
    assert CategoricalSet(ExampleSchema) == {0, 2} by {
      assert 0 in CategoricalSet(ExampleSchema) && 2 in CategoricalSet(ExampleSchema);
    }
    assert ValuesAt(records, 0) == {"red", "blue"} by {
      assert records[0][0] == "red" && records[1][0] == "blue";
    }
    assert ValuesAt(records, 2) == {"yes", "no"} by {
      assert records[0][2] == "yes" && records[1][2] == "no";
    }
  }

  /** The encoders built for the example: colour and answer codes. */
  lemma ExampleEncoders()
    ensures EncodersOf(DistinctValues(ExampleSchema, ExampleData))
         == map[0 := map["blue" := 0, "red" := 1], 2 := map["no" := 0, "yes" := 1]]
  {
    ExampleDistinctValues();
    ColourCodes();
    AnswerCodes();
  }

  /** The cardinality map is keyed by column, the feature vector by slot.
      Over the three example records the categorical target, column 2, is a
      key of the map with two classes, while each encoded record has only
      the slots 0 and 1. */
  lemma InfoKeysAreColumns(parse: Parser)
    requires parse("1.0") == Some(Num(1.0))
    ensures var encoders := EncodersOf(DistinctValues(ExampleSchema, ExampleData));
      var r := Encode(2, encoders, parse, ["red", "1.0", "yes"]);
      && encoders.Keys == {0, 2}
      && |encoders[2]| == 2
      && r.Success? && |r.value.features| == 2
  {
    ExampleEncoders();
    EncodeExampleRecord(parse);
  }
}
