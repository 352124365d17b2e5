/**
 OCR output: collecting observations without duplicates, validating what a provider returns, and
 turning observations into chunks.
 */
module OcrOutput {
  import opened Wrappers
  import opened Utf8
  import opened Execution
  import opened Chunking
  import opened Session
  import opened Units
  import opened Recovery
  import Boxes

  const ABSOLUTE_MAX_OCR_SOURCE_BYTES: nat := 32 * 1024 * 1024
  const ABSOLUTE_MAX_OCR_OUTPUT_BYTES: nat := 8 * 1024 * 1024
  const ABSOLUTE_MAX_OCR_OBSERVATIONS: nat := 4_096
  const ABSOLUTE_MAX_OCR_OBSERVATION_BYTES: nat := 256 * 1024
  const ABSOLUTE_MAX_OCR_DIMENSION: nat := 16_384
  const ABSOLUTE_MAX_OCR_PIXELS: nat := 64 * 1024 * 1024

  datatype ProviderLimits =
    ProviderLimits(maxOutputBytes: nat, maxObservations: nat, maxObservationBytes: nat)

  datatype Observation = Observation(text: Text, box: BoundingBox, confidence: Option<nat>)

  datatype Request = Request(
    pngOrJpeg: bool, expectedSourceBytes: nat, pixelWidth: nat, pixelHeight: nat)

  /** `validate_ocr_request`. */
  function ValidateRequest(request: Request, limits: Limits)
    : Result<ProviderLimits, ExtractionError>
  {
    if !limits.Valid() then Err(InvalidLimits)
    else if !request.pngOrJpeg then Err(UnsupportedMediaKind)
    else if request.expectedSourceBytes == 0
            || request.expectedSourceBytes > limits.maxImageSourceBytes
            || request.expectedSourceBytes > ABSOLUTE_MAX_OCR_SOURCE_BYTES
    then Err(SourceTooLarge)
    else if request.pixelWidth == 0 || request.pixelHeight == 0
            || request.pixelWidth > limits.maxImageDimension
            || request.pixelHeight > limits.maxImageDimension
            || request.pixelWidth > ABSOLUTE_MAX_OCR_DIMENSION
            || request.pixelHeight > ABSOLUTE_MAX_OCR_DIMENSION
            || request.pixelWidth * request.pixelHeight > limits.maxImagePixels
            || request.pixelWidth * request.pixelHeight > ABSOLUTE_MAX_OCR_PIXELS
    then Err(ImageDimensionLimitExceeded)
    else
      var maxOutput := Min(limits.maxOutputBytes, ABSOLUTE_MAX_OCR_OUTPUT_BYTES);
      Ok(ProviderLimits(
        maxOutput,
        Min(limits.maxChunks, ABSOLUTE_MAX_OCR_OBSERVATIONS),
        Min(maxOutput, ABSOLUTE_MAX_OCR_OBSERVATION_BYTES)))
  }

  /** What both the collector and the validator demand of one observation. */
  predicate Acceptable(observation: Observation, limits: ProviderLimits) {
    && observation.text != []
    && |observation.text| <= limits.maxObservationBytes
    && Boxes.IsValid(observation.box)
    && (observation.confidence.Some? ==> observation.confidence.value <= 10_000)
  }

  function TextBytes(observations: seq<Observation>): nat {
    if observations == [] then 0
    else |observations[0].text| + TextBytes(observations[1..])
  }

  lemma {:induction false} TextBytesOneMore(observations: seq<Observation>, last: Observation)
    ensures TextBytes(observations + [last]) == TextBytes(observations) + |last.text|
    decreases |observations|
  {
    hide ValidFrom;
    var more := observations + [last];
    if observations == [] {
      assert more[1..] == [];
    } else {
      TextBytesOneMore(observations[1..], last);
      assert more[1..] == observations[1..] + [last];
    }
  }

  /** A list a provider may return under these limits. */
  ghost predicate WithinLimits(observations: seq<Observation>, limits: ProviderLimits) {
    && |observations| <= limits.maxObservations
    && (forall k :: 0 <= k < |observations| ==> Acceptable(observations[k], limits))
    && TextBytes(observations) <= limits.maxOutputBytes
  }

  /** The list, the set of seen keys, and the byte total that `push_unique_observation` updates. */
  class Collector {
    const limits: ProviderLimits
    var observations: seq<Observation>
    var seen: set<(Text, BoundingBox)>
    var outputBytes: nat

    constructor (limits: ProviderLimits)
      ensures this.limits == limits && Valid() && observations == []
    {
      this.limits := limits;
      observations, seen, outputBytes := [], {}, 0;
    }

    /** The list is within the limits and without duplicates, and the other two fields agree. */
    ghost predicate Valid()
      reads this
    {
      && WithinLimits(observations, limits)
      && outputBytes == TextBytes(observations)
      && (forall k :: 0 <= k < |observations| ==> KeyOf(observations[k]) in seen)
      && (forall key :: key in seen ==>
            exists k :: 0 <= k < |observations| && KeyOf(observations[k]) == key)
      && (forall j, k :: 0 <= j < k < |observations| ==>
            KeyOf(observations[j]) != KeyOf(observations[k]))
    }

    static function KeyOf(observation: Observation): (Text, BoundingBox) {
      (observation.text, observation.box)
    }

    /** `push_unique_observation`. */
    method PushUnique(candidate: Observation) returns (error: Option<ExtractionError>)
      requires Valid()
      modifies this
      ensures Valid()
      ensures error == (
                if !Acceptable(candidate, limits) then Some(OcrOutputInvalid)
                else if Holds(old(observations), candidate) then None
                else if |old(observations)| >= limits.maxObservations then
                  Some(OcrObservationLimitExceeded)
                else if TextBytes(old(observations)) + |candidate.text| > limits.maxOutputBytes then
                  Some(OutputTooLarge)
                else None)
      ensures observations
           == if error.None? && !Holds(old(observations), candidate)
              then old(observations) + [candidate] else old(observations)
    {
      hide ValidFrom, TextBytes;
      if !Acceptable(candidate, limits) {
        return Some(OcrOutputInvalid);
      }
      var key := KeyOf(candidate);
      if key in seen {
        return None;
      }
      if |observations| >= limits.maxObservations {
        return Some(OcrObservationLimitExceeded);
      }
      var nextOutputBytes := outputBytes + |candidate.text|;
      if nextOutputBytes > limits.maxOutputBytes {
        return Some(OutputTooLarge);
      }
      TextBytesOneMore(observations, candidate);
      ghost var before := observations;
      seen := seen + {key};
      outputBytes := nextOutputBytes;
      observations := observations + [candidate];
      forall known | known in seen
        ensures exists k :: 0 <= k < |observations| && KeyOf(observations[k]) == known
      {
        if known == key {
          assert KeyOf(observations[|before|]) == known;
        } else {
          var k :| 0 <= k < |before| && KeyOf(before[k]) == known;
          assert KeyOf(observations[k]) == known;
        }
      }
      return None;
    }

    /** The same text at the same place is already in the list. */
    static ghost predicate Holds(observations: seq<Observation>, candidate: Observation) {
      exists k :: 0 <= k < |observations| && observations[k].text == candidate.text
                  && observations[k].box == candidate.box
    }
  }

  /** The run of `validate_ocr_output` over the rest of the list, `total` bytes in. */
  function ValidationPlan(rest: seq<Observation>, total: nat, limits: ProviderLimits): seq<Step> {
    if rest == [] then [Gate]
    else if !Acceptable(rest[0], limits) then [Gate, Reject(OcrOutputInvalid)]
    else if total + |rest[0].text| > limits.maxOutputBytes then [Gate, Reject(OutputTooLarge)]
    else [Gate] + ValidationPlan(rest[1..], total + |rest[0].text|, limits)
  }

  function ValidateOutputPlan(observations: seq<Observation>, limits: ProviderLimits): seq<Step> {
    [Gate] + if |observations| > limits.maxObservations then [Reject(OcrObservationLimitExceeded)]
             else ValidationPlan(observations, 0, limits)
  }

  lemma {:induction false} ValidationAcceptsIff(
    rest: seq<Observation>, total: nat, limits: ProviderLimits)
    requires total <= limits.maxOutputBytes
    ensures RejectsNothing(ValidationPlan(rest, total, limits))
            <==> && (forall k :: 0 <= k < |rest| ==> Acceptable(rest[k], limits))
                 && total + TextBytes(rest) <= limits.maxOutputBytes
    ensures HasNoPieces(ValidationPlan(rest, total, limits))
    decreases |rest|
  {
    hide ValidFrom, Acceptable;
    var plan := ValidationPlan(rest, total, limits);
    if rest != [] {
      if !Acceptable(rest[0], limits) || total + |rest[0].text| > limits.maxOutputBytes {
        assert plan[1].Reject?;
      } else {
        var more := ValidationPlan(rest[1..], total + |rest[0].text|, limits);
        ValidationAcceptsIff(rest[1..], total + |rest[0].text|, limits);
        RejectsNothingConcat([Gate], more);
        assert rest == [rest[0]] + rest[1..];
      }
    }
  }

  /** The validator accepts exactly the lists within the limits; in particular it accepts whatever
      the collector has collected. */
  lemma ValidatorAcceptsIff(observations: seq<Observation>, limits: ProviderLimits)
    ensures RejectsNothing(ValidateOutputPlan(observations, limits))
            <==> WithinLimits(observations, limits)
    ensures HasNoPieces(ValidateOutputPlan(observations, limits))
  {
    hide ValidFrom, Acceptable, TextBytes, ValidationPlan;
    var plan := ValidateOutputPlan(observations, limits);
    if |observations| > limits.maxObservations {
      assert plan[1].Reject?;
    } else {
      ValidationAcceptsIff(observations, 0, limits);
      RejectsNothingConcat([Gate], ValidationPlan(observations, 0, limits));
    }
  }

  method ValidateOutput(
    session: Session, observations: seq<Observation>, limits: ProviderLimits, ghost budget: Budget)
    returns (error: Option<ExtractionError>)
    requires budget.control == session.control
    modifies session
    ensures Outcome(session.State(), error)
         == Execute(ValidateOutputPlan(observations, limits), budget, old(session.State()))
  {
    hide Execute, ValidFrom, Acceptable, ValidationPlan;
    var stop := session.Check();
    ghost var tail := ValidateOutputPlan(observations, limits)[1..];
    assert ValidateOutputPlan(observations, limits) == [Gate] + tail;
    ExecuteCons(Gate, tail, budget, old(session.State()));
    if stop.Some? {
      return Some(Stopped(stop.value));
    }
    if |observations| > limits.maxObservations {
      Rejected(OcrObservationLimitExceeded, budget, session.State());
      return Some(OcrObservationLimitExceeded);
    }
    ghost var goal := Execute(tail, budget, session.State());
    assert tail == ValidationPlan(observations, 0, limits);
    assert observations[0..] == observations;
    var outputBytes: nat := 0;
    for next := 0 to |observations|
      invariant goal == Execute(ValidationPlan(observations[next..], outputBytes, limits), budget,
                                session.State())
    {
      ValidationTurn(observations[next..], outputBytes, limits, budget, session.State());
      assert observations[next..][1..] == observations[next + 1..];
      stop := session.Check();
      if stop.Some? {
        return Some(Stopped(stop.value));
      }
      if !Acceptable(observations[next], limits) {
        return Some(OcrOutputInvalid);
      }
      outputBytes := outputBytes + |observations[next].text|;
      if outputBytes > limits.maxOutputBytes {
        return Some(OutputTooLarge);
      }
    }
    ValidationTurn([], outputBytes, limits, budget, session.State());
    stop := session.Check();
    return if stop.Some? then Some(Stopped(stop.value)) else None;
  }

  lemma ValidationTurn(
    rest: seq<Observation>, total: nat, limits: ProviderLimits, budget: Budget, sink: Sink)
    ensures var checked := Advance(Gate, sink);
            Execute(ValidationPlan(rest, total, limits), budget, sink)
            == if budget.control(sink.checks).Some? then
                 Outcome(checked, Some(Stopped(budget.control(sink.checks).value)))
               else if rest == [] then Outcome(checked, None)
               else if !Acceptable(rest[0], limits) then Outcome(checked, Some(OcrOutputInvalid))
               else if total + |rest[0].text| > limits.maxOutputBytes then
                 Outcome(checked, Some(OutputTooLarge))
               else Execute(ValidationPlan(rest[1..], total + |rest[0].text|, limits), budget,
                            checked)
  {
    hide Execute, ValidFrom, Acceptable;
    var plan := ValidationPlan(rest, total, limits);
    var tail := plan[1..];
    assert plan == [Gate] + tail;
    ExecuteCons(Gate, tail, budget, sink);
    if rest == [] {
      ExecuteNothing(budget, Advance(Gate, sink));
    } else if !Acceptable(rest[0], limits) {
      Rejected(OcrOutputInvalid, budget, Advance(Gate, sink));
    } else if total + |rest[0].text| > limits.maxOutputBytes {
      Rejected(OutputTooLarge, budget, Advance(Gate, sink));
    }
  }

  function UnitOf(observation: Observation, number: nat): Unit {
    Unit(1, observation.text, ObservationLabel(number, observation.box, observation.confidence))
  }

  /** The observations as units, numbered from 1. */
  function UnitsOf(observations: seq<Observation>): (units: seq<Unit>)
    ensures |units| == |observations|
    ensures forall k :: 0 <= k < |units| ==> units[k] == UnitOf(observations[k], k + 1)
  {
    seq(|observations|, k requires 0 <= k < |observations| => UnitOf(observations[k], k + 1))
  }

  /** The run of `build_ocr_extraction_output`. */
  function BuildPlan(observations: seq<Observation>, limits: Limits, provider: ProviderLimits)
    : seq<Step>
    requires limits.Valid()
  {
    ValidateOutputPlan(observations, provider)
    + (UnitsPlan(UnitsOf(observations), limits) + [Gate])
  }

  method BuildExtractionOutput(
    session: Session, request: Request, limits: Limits, observations: seq<Observation>)
    returns (error: Option<ExtractionError>)
    requires session.chunks == [] && session.outputBytes == 0
    modifies session
    ensures var provider := ValidateRequest(request, limits);
            Outcome(session.State(), error)
            == if provider.Err? then Outcome(old(session.State()), Some(provider.error))
               else Execute(BuildPlan(observations, limits, provider.value),
                            Budget(limits.maxChunks, provider.value.maxOutputBytes,
                                   session.control),
                            old(session.State()))
  {
    hide Execute, Pieces, ValidFrom, UnitsPlan, ValidateOutputPlan;
    var provider := ValidateRequest(request, limits);
    if provider.Err? {
      return Some(provider.error);
    }
    var maxOutput := provider.value.maxOutputBytes;
    ghost var budget := Budget(limits.maxChunks, maxOutput, session.control);
    ghost var units := UnitsOf(observations);
    ghost var chunking := UnitsPlan(units, limits) + [Gate];
    ExecuteConcat(ValidateOutputPlan(observations, provider.value), chunking, budget,
                  session.State());
    error := ValidateOutput(session, observations, provider.value, budget);
    if error.Some? {
      return;
    }
    ExecuteConcat(UnitsPlan(units, limits), [Gate], budget, session.State());
    ghost var goal := Execute(UnitsPlan(units, limits), budget, session.State());
    assert units[0..] == units;
    for index := 0 to |observations|
      invariant goal == Execute(UnitsPlan(units[index..], limits), budget, session.State())
    {
      UnitsTurn(units[index..], limits, budget, session.State());
      assert units[index..][1..] == units[index + 1..];
      var stop := session.Check();
      if stop.Some? {
        return Some(Stopped(stop.value));
      }
      var observation := observations[index];
      var failure := session.AppendObservation(
        observation.text, index + 1, observation.box, observation.confidence, limits, maxOutput);
      if failure.Some? {
        return failure;
      }
    }
    NoUnitsLeft(limits, budget, session.State());
    assert [Gate] == [Gate] + [];
    ExecuteCons(Gate, [], budget, session.State());
    ExecuteNothing(budget, Advance(Gate, session.State()));
    var stop := session.Check();
    return if stop.Some? then Some(Stopped(stop.value)) else None;
  }

  /** Building the output succeeds if and only if the provider kept its limits, control never
      objects, and the fragments of all observations - overlaps counted again - fit the chunk limit
      and the provider's byte limit. */
  lemma BuildSucceedsIff(
    observations: seq<Observation>, limits: Limits, provider: ProviderLimits, control: Control)
    requires limits.Valid()
    ensures var plan := BuildPlan(observations, limits, provider);
            var pieces := AllPieces(UnitsOf(observations), limits);
            var budget := Budget(limits.maxChunks, provider.maxOutputBytes, control);
            var run := Execute(plan, budget, Sink([], 0, 0));
            && (forall k :: 0 <= k < |pieces| ==> pieces[k].Piece?)
            && (run.error.None?
                <==> && WithinLimits(observations, provider) && Quiet(control, 0, |plan|)
                     && |pieces| <= limits.maxChunks
                     && BytesOf(pieces) <= provider.maxOutputBytes)
            && (run.error.None? ==>
                  run.sink == Sink(Numbered(pieces, 0), BytesOf(pieces), |plan|))
  {
    hide Execute, Pieces, ValidFrom, UnitsPlan, AllPieces, BytesOf, PiecesOf, Quiet,
         ValidateOutputPlan, WithinLimits;
    var plan := BuildPlan(observations, limits, provider);
    var units := UnitsOf(observations);
    var budget := Budget(limits.maxChunks, provider.maxOutputBytes, control);
    SucceedsIff(plan, budget, Sink([], 0, 0));
    BuildPlanFacts(observations, limits, provider);
    assert plan[..|plan|] == plan;
    assert [] + Numbered(PiecesOf(plan), 0) == Numbered(PiecesOf(plan), 0);
  }

  lemma BuildPlanFacts(observations: seq<Observation>, limits: Limits, provider: ProviderLimits)
    requires limits.Valid()
    ensures var plan := BuildPlan(observations, limits, provider);
            var pieces := AllPieces(UnitsOf(observations), limits);
            && (RejectsNothing(plan) <==> WithinLimits(observations, provider))
            && PiecesOf(plan) == pieces && BytesOf(plan) == BytesOf(pieces)
  {
    hide Pieces, ValidFrom, UnitsPlan, AllPieces, BytesOf, PiecesOf, ValidateOutputPlan,
         WithinLimits;
    var units := UnitsOf(observations);
    var check, chunking := ValidateOutputPlan(observations, provider), UnitsPlan(units, limits);
    ValidatorAcceptsIff(observations, provider);
    UnitsRejectNothing(units, limits);
    RejectsNothingConcat(check, chunking + [Gate]);
    RejectsNothingConcat(chunking, [Gate]);
    WithoutPieces(check);
    WithoutPieces([Gate]);
    PiecesOfConcat(check, chunking + [Gate]);
    PiecesOfConcat(chunking, [Gate]);
    BytesOfConcat(check, chunking + [Gate]);
    BytesOfConcat(chunking, [Gate]);
    AllPiecesArePieces(units, limits);
    BytesOfPieces(chunking);
  }

  /** Which requests are admitted, and which error the others meet first. */
  lemma RequestAdmittedIff(request: Request, limits: Limits)
    ensures ValidateRequest(request, limits).Ok?
            <==> && limits.Valid() && request.pngOrJpeg
                 && 1 <= request.expectedSourceBytes <= limits.maxImageSourceBytes
                 && request.expectedSourceBytes <= 32 * 1024 * 1024
                 && 1 <= request.pixelWidth <= limits.maxImageDimension
                 && 1 <= request.pixelHeight <= limits.maxImageDimension
                 && request.pixelWidth <= 16_384 && request.pixelHeight <= 16_384
                 && request.pixelWidth * request.pixelHeight <= limits.maxImagePixels
                 && request.pixelWidth * request.pixelHeight <= 64 * 1024 * 1024
    ensures ValidateRequest(request, limits).Err? ==>
              ValidateRequest(request, limits).error
              == if !limits.Valid() then InvalidLimits
                 else if !request.pngOrJpeg then UnsupportedMediaKind
                 else if 1 <= request.expectedSourceBytes <= limits.maxImageSourceBytes
                         && request.expectedSourceBytes <= 32 * 1024 * 1024
                 then ImageDimensionLimitExceeded
                 else SourceTooLarge
  {
  }

  /** A limit that is within two others, and as large as they allow. */
  predicate IsLesser(limit: nat, a: nat, b: nat) {
    limit <= a && limit <= b && (limit == a || limit == b)
  }

  /** The limits of the provider are the lesser ones of its own and those of the extraction, and never
      nothing. */
  lemma ProviderLimitsAre(request: Request, limits: Limits)
    requires ValidateRequest(request, limits).Ok?
    ensures var provider := ValidateRequest(request, limits).value;
            && IsLesser(provider.maxOutputBytes, limits.maxOutputBytes, 8 * 1024 * 1024)
            && IsLesser(provider.maxObservations, limits.maxChunks, 4_096)
            && IsLesser(provider.maxObservationBytes, provider.maxOutputBytes, 256 * 1024)
            && provider.maxOutputBytes > 0 && provider.maxObservations > 0
            && provider.maxObservationBytes > 0
  {
  }

  /** The observations that have any text, under their numbers, with their boxes and confidences. */
  function ObservationMarks(observations: seq<Observation>, number: nat): (marks: seq<Marked>)
    ensures AllText(marks)
  {
    if observations == [] then []
    else
      var first := observations[0];
      (if first.text == [] then []
       else [Marked(OcrObservation(number, 0, first.box, first.confidence), first.text)])
      + ObservationMarks(observations[1..], number + 1)
  }

  function NumberedFrom(observations: seq<Observation>, number: nat): (units: seq<Unit>)
    ensures |units| == |observations|
    ensures forall k :: 0 <= k < |units| ==> units[k] == UnitOf(observations[k], number + k)
  {
    seq(|observations|, k requires 0 <= k < |observations| => UnitOf(observations[k], number + k))
  }

  lemma {:induction false} MarksOfObservations(observations: seq<Observation>, number: nat)
    ensures MarkedUnits(NumberedFrom(observations, number)) == ObservationMarks(observations, number)
    ensures AllIndexed(NumberedFrom(observations, number))
    decreases |observations|
  {
    hide ValidFrom, Indexed;
    var units := NumberedFrom(observations, number);
    forall k | 0 <= k < |units| ensures Indexed(units[k].name) {
      ObservationIsIndexed(number + k, observations[k].box, observations[k].confidence);
    }
    if observations != [] {
      MarksOfObservations(observations[1..], number + 1);
      assert units[1..] == NumberedFrom(observations[1..], number + 1);
    }
  }

  lemma ObservationIsIndexed(number: nat, box: BoundingBox, confidence: Option<nat>)
    ensures Indexed(ObservationLabel(number, box, confidence))
  {
  }

  /** What an observation must be: some text, not too long, in a box inside the image that is not empty,
      with a confidence of at most one. */
  predicate Usable(observation: Observation, limits: Limits) {
    && 1 <= |observation.text| <= 256 * 1024
    && |observation.text| <= limits.maxOutputBytes
    && observation.box.widthPpm >= 1 && observation.box.xPpm + observation.box.widthPpm <= 1_000_000
    && observation.box.heightPpm >= 1 && observation.box.yPpm + observation.box.heightPpm <= 1_000_000
    && (observation.confidence.Some? ==> observation.confidence.value <= 10_000)
  }

  /** From end to end, for a request that is admitted: the output is built if and only if there are not too
      many observations, all of them are usable, control never objects, and their texts and fragments fit;
      it is then the fragments of the observations, numbered from 1 in their order. */
  lemma OutputIsBuiltIff(
    request: Request, limits: Limits, observations: seq<Observation>, control: Control)
    requires ValidateRequest(request, limits).Ok?
    ensures var provider := ValidateRequest(request, limits).value;
            var plan := BuildPlan(observations, limits, provider);
            var run := Execute(plan, Budget(limits.maxChunks, provider.maxOutputBytes, control),
                               Sink([], 0, 0));
            var pieces := Fragments(ObservationMarks(observations, 1), limits);
            && (forall k :: 0 <= k < |pieces| ==> pieces[k].Piece?)
            && (run.error.None?
                <==> && |observations| <= limits.maxChunks && |observations| <= 4_096
                     && (forall k :: 0 <= k < |observations| ==> Usable(observations[k], limits))
                     && TextBytes(observations) <= limits.maxOutputBytes
                     && TextBytes(observations) <= 8 * 1024 * 1024
                     && Quiet(control, 0, |plan|) && |pieces| <= limits.maxChunks
                     && BytesOf(pieces) <= limits.maxOutputBytes
                     && BytesOf(pieces) <= 8 * 1024 * 1024)
            && (run.error.None? ==>
                  run.sink == Sink(Numbered(pieces, 0), BytesOf(pieces), |plan|))
  {
    hide Execute, Pieces, ValidFrom, AllPieces, BytesOf, Quiet, Fragments, ObservationMarks, BuildPlan,
         MarkedUnits, Indexed, TextBytes, ValidateRequest, Acceptable, Usable;
    var provider := ValidateRequest(request, limits).value;
    RequestAdmittedIff(request, limits);
    ProviderLimitsAre(request, limits);
    BuildSucceedsIff(observations, limits, provider, control);
    assert UnitsOf(observations) == NumberedFrom(observations, 1);
    MarksOfObservations(observations, 1);
    PiecesAreFragments(UnitsOf(observations), limits);
    forall k | 0 <= k < |observations|
      ensures Acceptable(observations[k], provider)
              <==> Usable(observations[k], limits)
    {
      AcceptableIff(observations[k], provider, limits);
    }
  }

  lemma AcceptableIff(observation: Observation, provider: ProviderLimits, limits: Limits)
    requires IsLesser(provider.maxOutputBytes, limits.maxOutputBytes, 8 * 1024 * 1024)
    requires IsLesser(provider.maxObservationBytes, provider.maxOutputBytes, 256 * 1024)
    ensures Acceptable(observation, provider) <==> Usable(observation, limits)
  {
    hide ValidFrom;
  }

  /** Which error a list meets first, after observations that are within the limits: one observation too
      many in all, before any of them is looked at; and then the first that is not usable, or with which
      there is too much text. */
  lemma {:induction false} ValidationEnds(
    before: seq<Observation>, rest: seq<Observation>, total: nat, provider: ProviderLimits)
    requires forall k :: 0 <= k < |before| ==> Acceptable(before[k], provider)
    requires total + TextBytes(before) <= provider.maxOutputBytes
    ensures rest == [] ==> ValidationPlan(before + rest, total, provider) == Gates(|before| + 1)
    ensures rest != [] && !Acceptable(rest[0], provider) ==>
              ValidationPlan(before + rest, total, provider)
              == Gates(|before| + 1) + [Reject(OcrOutputInvalid)]
    ensures rest != [] && Acceptable(rest[0], provider)
            && total + TextBytes(before) + |rest[0].text| > provider.maxOutputBytes ==>
              ValidationPlan(before + rest, total, provider)
              == Gates(|before| + 1) + [Reject(OutputTooLarge)]
    decreases |before|
  {
    hide ValidFrom, Acceptable;
    if before == [] {
      assert before + rest == rest;
    } else {
      assert (before + rest)[0] == before[0] && (before + rest)[1..] == before[1..] + rest;
      ValidationEnds(before[1..], rest, total + |before[0].text|, provider);
    }
  }

  /** Building an output is checked when validation begins, for each observation in it, and at its end; then
      for each observation and for each piece of it; and once in the end. */
  lemma ChecksMade(observations: seq<Observation>, limits: Limits, provider: ProviderLimits)
    requires limits.Valid() && WithinLimits(observations, provider)
    ensures |BuildPlan(observations, limits, provider)|
         == 3 + 2 * |observations| + |AllPieces(UnitsOf(observations), limits)|
  {
    hide ValidFrom, Pieces, UnitsPlan, AllPieces, Acceptable, TextBytes, ValidationPlan;
    ValidationEnds(observations, [], 0, provider);
    assert observations + [] == observations;
    ChecksOfUnits(UnitsOf(observations), limits);
    OneForEach(observations, 1);
    assert UnitsOf(observations) == NumberedFrom(observations, 1);
  }

  lemma {:induction false} OneForEach(observations: seq<Observation>, number: nat)
    ensures AllChecks(NumberedFrom(observations, number)) == |observations|
    decreases |observations|
  {
    hide ValidFrom;
    if observations != [] {
      OneForEach(observations[1..], number + 1);
      assert NumberedFrom(observations, number)[1..] == NumberedFrom(observations[1..], number + 1);
    }
  }
}
