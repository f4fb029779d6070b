/** Turning one parsed record into a labelled training point (the function
    that `RDFUpdate.parsedToRatingRDD` maps over the records). Categorical
    fields become their ordinal code, other fields are parsed as numbers; the
    target field becomes the label and the other fields fill the feature
    vector in order, closing the gap the target leaves. */
module RecordEncoder {
  import opened Wrappers
  import opened Ordinal
  import opened Collect

  /** A Java `double`, as far as this model needs one: NaN or a number.
      Rounding, infinities and signed zeros are not modelled. */
  datatype Double = NaN | Num(value: real)

  /** Spark's `LabeledPoint(label, Vectors.dense(features))`. */
  datatype LabeledPoint = LabeledPoint(targetValue: Double, features: seq<Double>)

  datatype EncodeError =
    | NegativeArraySize                    // `new double[data.length - 1]` for a record with no fields
    | UnknownCategory(index: nat)          // `mapping.get` returned null; unboxing it throws
    | MalformedNumber(index: nat)          // `Double.parseDouble` threw NumberFormatException
    | FeatureIndexOutOfBounds(index: nat)  // `features[i - offset]` past the end: no target field was met
    | LabelNotSet                          // `checkState(!Double.isNaN(target))` failed

  /** The encoders by categorical index; an index without one is numeric. */
  type Encoders = map<nat, Encoder>

  /** `Double.parseDouble`: `None` where it throws. */
  type Parser = string -> Option<Double>

  // ---------------------------------------------------------------------
  // Specification

  /** Lines 209-215: the value of field `i`. */
  function EncodeField(encoders: Encoders, parse: Parser, data: seq<string>, i: nat): Result<Double, EncodeError>
    requires i < |data|
  {
    if i in encoders then
      if data[i] in encoders[i] then Success(Num(encoders[i][data[i]] as real))
      else Failure(UnknownCategory(i))
    else
      match parse(data[i])
      case None => Failure(MalformedNumber(i))
      case Some(d) => Success(d)
  }

  predicate FieldsEncode(encoders: Encoders, parse: Parser, data: seq<string>, n: nat)
    requires n <= |data|
  {
    forall i :: 0 <= i < n ==> EncodeField(encoders, parse, data, i).Success?
  }

  /** The error of the first field, from `from` on, that fails to encode. */
  function FirstFailure(encoders: Encoders, parse: Parser, data: seq<string>, from: nat): (e: Option<EncodeError>)
    requires from <= |data|
    decreases |data| - from
    ensures e.None? <==> forall i :: from <= i < |data| ==> EncodeField(encoders, parse, data, i).Success?
    ensures e.Some? ==> exists i :: from <= i < |data| && EncodeField(encoders, parse, data, i) == Failure(e.value)
  {
    if from == |data| then None
    else match EncodeField(encoders, parse, data, from)
      case Failure(err) => Some(err)
      case Success(_) => FirstFailure(encoders, parse, data, from + 1)
  }

  /** The field whose value lands in feature slot `j`. */
  function FieldOfSlot(target: nat, j: nat): nat
  {
    if j < target then j else j + 1
  }

  /** The feature slot of field `i`, which is not the target. */
  function SlotOfField(target: nat, i: nat): nat
    requires i != target
  {
    if i < target then i else i - 1
  }

  /** The expected outcome of encoding `data` with target index `target`.
      Fields are visited in order, so the first field that fails decides the
      error; a record that never reaches its target fails when its last field
      is written one slot past the end of the feature vector. */
  function Encode(target: nat, encoders: Encoders, parse: Parser, data: seq<string>): Result<LabeledPoint, EncodeError>
  {
    if |data| == 0 then Failure(NegativeArraySize)
    else match FirstFailure(encoders, parse, data, 0)
      case Some(e) => Failure(e)
      case None =>
        if target >= |data| then Failure(FeatureIndexOutOfBounds(|data| - 1))
        else if EncodeField(encoders, parse, data, target).value == NaN then Failure(LabelNotSet)
        else Success(LabeledPoint(
          EncodeField(encoders, parse, data, target).value,
          seq(|data| - 1, j requires 0 <= j < |data| - 1 =>
            EncodeField(encoders, parse, data, FieldOfSlot(target, j)).value)))
  }

  // ---------------------------------------------------------------------
  // Properties of the encoding

  lemma {:induction false} FirstFailureIs(encoders: Encoders, parse: Parser, data: seq<string>, from: nat, i: nat)
    requires from <= i < |data|
    requires forall k :: from <= k < i ==> EncodeField(encoders, parse, data, k).Success?
    requires EncodeField(encoders, parse, data, i).Failure?
    ensures FirstFailure(encoders, parse, data, from) == Some(EncodeField(encoders, parse, data, i).error)
    decreases i - from
  {
    if from < i {
      FirstFailureIs(encoders, parse, data, from + 1, i);
    }
  }

  /** Encoding succeeds exactly when the record has fields, reaches its
      target, every field encodes and the label is not NaN. */
  lemma EncodeSucceedsIff(target: nat, encoders: Encoders, parse: Parser, data: seq<string>)
    ensures Encode(target, encoders, parse, data).Success? <==>
      && 0 < |data|
      && target < |data|
      && FieldsEncode(encoders, parse, data, |data|)
      && EncodeField(encoders, parse, data, target).value != NaN
  {
  }

  /** The shape of an encoded record: n-1 features; the label is the target
      field; every other field i sits in slot i before the target and in slot
      i-1 after it. */
  lemma EncodedShape(target: nat, encoders: Encoders, parse: Parser, data: seq<string>)
    requires Encode(target, encoders, parse, data).Success?
    ensures var p := Encode(target, encoders, parse, data).value;
      && target < |data|
      && |p.features| == |data| - 1
      && p.targetValue != NaN
      && p.targetValue == EncodeField(encoders, parse, data, target).value
      && forall i :: 0 <= i < |data| && i != target ==>
           p.features[SlotOfField(target, i)] == EncodeField(encoders, parse, data, i).value
  {
  }

  /** The NaN check can only fire for a numeric target field that parses to
      NaN: a record that never reaches its target fails earlier, on the
      feature-vector write. */
  lemma LabelNotSetMeansNaNTarget(target: nat, encoders: Encoders, parse: Parser, data: seq<string>)
    requires Encode(target, encoders, parse, data) == Failure(LabelNotSet)
    ensures target < |data| && target !in encoders && parse(data[target]) == Some(NaN)
  {
  }

  /** Every categorical field of a record read by the collection pass is a
      key of its encoder, so encoding never fails on an unknown category. */
  lemma {:induction false} CollectedRecordHasNoUnknownCategory(
    keys: set<nat>, records: seq<Record>, target: nat, parse: Parser, data: seq<string>)
    requires Covers(keys, records) && data in records
    ensures !Encode(target, EncodersOf(PartitionValues(keys, records)), parse, data).Failure?
         || !Encode(target, EncodersOf(PartitionValues(keys, records)), parse, data).error.UnknownCategory?
  {
  }

  // ---------------------------------------------------------------------
  // Implementation

  /** Lines 204-225: the record encoder, writing into a feature array. */
  method EncodeRecord(target: nat, encoders: Encoders, parse: Parser, data: seq<string>)
    returns (r: Result<LabeledPoint, EncodeError>)
    ensures r == Encode(target, encoders, parse, data)
  {
    if |data| == 0 {
      return Failure(NegativeArraySize);
    }
    var features := new Double[|data| - 1](_ => Num(0.0));
    var targetValue := NaN;
    var offset := 0;
    var i := 0;
    while i < |data|
      invariant i <= |data|
      invariant FieldsEncode(encoders, parse, data, i)
      invariant offset == if target < i then 1 else 0
      invariant targetValue == if target < i then EncodeField(encoders, parse, data, target).value else NaN
      invariant target >= i ==> i <= features.Length
      invariant forall k :: 0 <= k < i && k != target ==>
        SlotOfField(target, k) < features.Length &&
        features[SlotOfField(target, k)] == EncodeField(encoders, parse, data, k).value
    {
      var encoded: Double;
      if i !in encoders {
        var parsed := parse(data[i]);
        if parsed.None? {
          FirstFailureIs(encoders, parse, data, 0, i);
          return Failure(MalformedNumber(i));
        }
        encoded := parsed.value;
      } else {
        var mapping := encoders[i];
        if data[i] !in mapping {
          FirstFailureIs(encoders, parse, data, 0, i);
          return Failure(UnknownCategory(i));
        }
        encoded := Num(mapping[data[i]] as real);
      }
      if i == target {
        targetValue := encoded;
        offset := 1;
      } else {
        if i - offset >= features.Length {
          return Failure(FeatureIndexOutOfBounds(i - offset));
        }
        features[i - offset] := encoded;
      }
      i := i + 1;
    }
    if targetValue == NaN {
      return Failure(LabelNotSet);
    }
    forall j | 0 <= j < features.Length
      ensures features[j] == EncodeField(encoders, parse, data, FieldOfSlot(target, j)).value
    {
      assert SlotOfField(target, FieldOfSlot(target, j)) == j;
    }
    assert target < |data|;
    assert FirstFailure(encoders, parse, data, 0).None?;
    assert features[..] == seq(|data| - 1, j requires 0 <= j < |data| - 1 =>
      EncodeField(encoders, parse, data, FieldOfSlot(target, j)).value);
    return Success(LabeledPoint(targetValue, features[..]));
  }

  /** `parsedRDD.map(...)`: every record encoded. Spark runs the records in
      parallel tasks, so a failure reports the error of some failing record. */
  method EncodeAll(target: nat, encoders: Encoders, parse: Parser, records: seq<Record>)
    returns (r: Result<seq<LabeledPoint>, EncodeError>)
    ensures r.Success? <==> forall i :: 0 <= i < |records| ==> Encode(target, encoders, parse, records[i]).Success?
    ensures r.Success? ==> |r.value| == |records|
    ensures r.Success? ==>
      forall i :: 0 <= i < |records| ==> r.value[i] == Encode(target, encoders, parse, records[i]).value
    ensures r.Failure? ==> exists i :: 0 <= i < |records| && Encode(target, encoders, parse, records[i]) == Failure(r.error)
  {
    var points: seq<LabeledPoint> := [];
    var i := 0;
    while i < |records|
      invariant i <= |records| && |points| == i
      invariant forall k :: 0 <= k < i ==> Encode(target, encoders, parse, records[k]) == Success(points[k])
    {
      var p := EncodeRecord(target, encoders, parse, records[i]);
      if p.Failure? {
        return Failure(p.error);
      }
      points := points + [p.value];
      i := i + 1;
    }
    return Success(points);
  }
}
