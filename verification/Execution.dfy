/**
 Extraction runs. Every extractor is a loop that asks for permission to go on, now and then
 emits a piece of text as a chunk under two running limits, and stops at the first thing that
 is wrong. The order in which it does so is a `plan`; `Execute` runs a plan one step at a time.
 */
module Execution {
  import opened Wrappers
  import opened Utf8

  datatype ControlError = Cancelled | TimeLimitExceeded

  datatype ExtractionError =
    | InvalidLimits
    | SourceTooLarge
    | OutputTooLarge
    | SourceChanged
    | SourceReadFailed
    | UnsupportedMediaKind
    | InvalidUtf8
    | InvalidPdf
    | EncryptedPdfUnsupported
    | DecompressionLimitExceeded
    | PageLimitExceeded
    | InvalidOoxmlXml
    | OoxmlStructureLimitExceeded
    | ImageDimensionLimitExceeded
    | OcrObservationLimitExceeded
    | OcrOutputInvalid
    | OcrProviderFailed
    | ChunkLimitExceeded
    | Stopped(reason: ControlError)

  /** What each successive cancellation and deadline check finds. */
  type Control = nat -> Option<ControlError>

  const ABSOLUTE_MAX_SOURCE_BYTES: nat := 64 * 1024 * 1024
  const ABSOLUTE_MAX_OUTPUT_BYTES: nat := 64 * 1024 * 1024
  const ABSOLUTE_MAX_CHUNKS: nat := 65_536
  const ABSOLUTE_MAX_CHUNK_BYTES: nat := 64 * 1024
  const ABSOLUTE_MAX_PROCESSING_NS: nat := 60_000_000_000
  const ABSOLUTE_MAX_DECOMPRESSED_BYTES: nat := 64 * 1024 * 1024
  const ABSOLUTE_MAX_PDF_PAGES: nat := 4_096
  const ABSOLUTE_MAX_IMAGE_PROBE_BYTES: nat := 8 * 1024 * 1024
  const MAX_IMAGE_DIMENSION_PIXELS: nat := 100_000
  const MAX_IMAGE_TOTAL_PIXELS: nat := 500_000_000

  datatype Limits = Limits(
    maxSourceBytes: nat,
    maxOutputBytes: nat,
    maxChunks: nat,
    maxChunkBytes: nat,
    chunkOverlapBytes: nat,
    maxDecompressedBytes: nat,
    maxPdfPages: nat,
    maxImageSourceBytes: nat,
    maxImageProbeBytes: nat,
    maxImageDimension: nat,
    maxImagePixels: nat,
    maxProcessingNs: nat)
  {
    /** `validate_limits`. */
    predicate Valid() {
      && 0 < maxSourceBytes <= ABSOLUTE_MAX_SOURCE_BYTES
      && 0 < maxOutputBytes <= ABSOLUTE_MAX_OUTPUT_BYTES
      && 0 < maxChunks <= ABSOLUTE_MAX_CHUNKS
      && 4 <= maxChunkBytes <= ABSOLUTE_MAX_CHUNK_BYTES
      && chunkOverlapBytes < maxChunkBytes
      && 0 < maxDecompressedBytes <= ABSOLUTE_MAX_DECOMPRESSED_BYTES
      && 0 < maxPdfPages <= ABSOLUTE_MAX_PDF_PAGES
      && 0 < maxImageSourceBytes <= ABSOLUTE_MAX_SOURCE_BYTES
      && 32 <= maxImageProbeBytes <= ABSOLUTE_MAX_IMAGE_PROBE_BYTES
      && maxImageProbeBytes <= maxImageSourceBytes
      && 0 < maxImageDimension <= MAX_IMAGE_DIMENSION_PIXELS
      && 0 < maxImagePixels <= MAX_IMAGE_TOTAL_PIXELS
      && 0 < maxProcessingNs <= ABSOLUTE_MAX_PROCESSING_NS
    }
  }

  datatype BoundingBox = BoundingBox(xPpm: nat, yPpm: nat, widthPpm: nat, heightPpm: nat)

  datatype Provenance =
    | ByteRange(start: nat, end: nat)
    | PdfPage(pageNumber: nat, fragmentIndex: nat)
    | DocxParagraph(paragraphNumber: nat, fragmentIndex: nat)
    | XlsxCell(sheetNumber: nat, cellReference: Bytes, fragmentIndex: nat)
    | OcrObservation(observationNumber: nat, fragmentIndex: nat, boundingBox: BoundingBox,
                     confidenceBasisPoints: Option<nat>)

  datatype Chunk = Chunk(ordinal: nat, text: Bytes, provenance: Provenance)

  /** One step of a run: a control check; a control check followed by a piece of output; or
      the discovery of an error, which needs no check. */
  datatype Step =
    | Gate
    | Piece(text: Bytes, provenance: Provenance)
    | Reject(error: ExtractionError)

  /** The running limits of a run, with the control it answers to. */
  datatype Budget = Budget(maxChunks: nat, maxOutputBytes: nat, control: Control)

  /** The growing output of a run and the number of control checks made so far. */
  datatype Sink = Sink(chunks: seq<Chunk>, outputBytes: nat, checks: nat)

  datatype Outcome = Outcome(sink: Sink, error: Option<ExtractionError>)

  /** What stands in the way of a step: a failed control check comes first, then a chunk limit
      that is already reached, then a byte limit that the piece would exceed. */
  function Finds(step: Step, budget: Budget, sink: Sink): Option<ExtractionError> {
    if step.Reject? then Some(step.error)
    else if budget.control(sink.checks).Some? then Some(Stopped(budget.control(sink.checks).value))
    else if step.Gate? then None
    else if |sink.chunks| >= budget.maxChunks then Some(ChunkLimitExceeded)
    else if sink.outputBytes + |step.text| > budget.maxOutputBytes then Some(OutputTooLarge)
    else None
  }

  /** The state after a step that goes well. */
  function Advance(step: Step, sink: Sink): Sink {
    if step.Piece? then
      Sink(sink.chunks + [Chunk(|sink.chunks|, step.text, step.provenance)],
           sink.outputBytes + |step.text|, sink.checks + 1)
    else Sink(sink.chunks, sink.outputBytes, sink.checks + 1)
  }

  /** The state a failing step leaves behind; the byte total is updated before it is compared. */
  function Stuck(step: Step, error: ExtractionError, sink: Sink): Sink {
    if step.Reject? then sink
    else if error.OutputTooLarge? && step.Piece? then
      Sink(sink.chunks, sink.outputBytes + |step.text|, sink.checks + 1)
    else Sink(sink.chunks, sink.outputBytes, sink.checks + 1)
  }

  /** Runs a plan until it ends or something goes wrong. */
  function Execute(plan: seq<Step>, budget: Budget, sink: Sink): Outcome {
    if plan == [] then Outcome(sink, None)
    else
      var found := Finds(plan[0], budget, sink);
      if found.Some? then Outcome(Stuck(plan[0], found.value, sink), found)
      else Execute(plan[1..], budget, Advance(plan[0], sink))
  }

  lemma ExecuteNothing(budget: Budget, sink: Sink)
    ensures Execute([], budget, sink) == Outcome(sink, None)
  {
  }

  lemma ExecuteCons(step: Step, rest: seq<Step>, budget: Budget, sink: Sink)
    ensures var found := Finds(step, budget, sink);
            Execute([step] + rest, budget, sink)
            == if found.Some? then Outcome(Stuck(step, found.value, sink), found)
               else Execute(rest, budget, Advance(step, sink))
  {
    assert ([step] + rest)[1..] == rest;
  }

  lemma Rejected(error: ExtractionError, budget: Budget, sink: Sink)
    ensures Execute([Reject(error)], budget, sink) == Outcome(sink, Some(error))
  {
    assert [Reject(error)] == [Reject(error)] + [];
    ExecuteCons(Reject(error), [], budget, sink);
  }

  /** A check followed by an error. */
  lemma RefuseAfterCheck(error: ExtractionError, budget: Budget, sink: Sink)
    ensures Execute([Gate, Reject(error)], budget, sink)
         == if budget.control(sink.checks).Some? then
              Outcome(Advance(Gate, sink), Some(Stopped(budget.control(sink.checks).value)))
            else Outcome(Advance(Gate, sink), Some(error))
  {
    hide Execute;
    assert [Gate, Reject(error)] == [Gate] + ([Reject(error)] + []);
    ExecuteCons(Gate, [Reject(error)] + [], budget, sink);
    ExecuteCons(Reject(error), [], budget, Advance(Gate, sink));
  }

  /** Running one plan after another is running their concatenation. */
  lemma {:induction false} ExecuteConcat(a: seq<Step>, b: seq<Step>, budget: Budget, sink: Sink)
    ensures var first := Execute(a, budget, sink);
            Execute(a + b, budget, sink)
            == if first.error.Some? then first else Execute(b, budget, first.sink)
    decreases |a|
  {
    if a == [] {
      assert a + b == b;
    } else {
      assert (a + b)[0] == a[0] && (a + b)[1..] == a[1..] + b;
      if Finds(a[0], budget, sink).None? {
        ExecuteConcat(a[1..], b, budget, Advance(a[0], sink));
      }
    }
  }

  /** The pieces of a plan, in order. */
  function PiecesOf(plan: seq<Step>): (pieces: seq<Step>)
    ensures forall k :: 0 <= k < |pieces| ==> pieces[k].Piece?
    ensures |pieces| <= |plan|
  {
    if plan == [] then []
    else (if plan[0].Piece? then [plan[0]] else []) + PiecesOf(plan[1..])
  }

  predicate HasNoPieces(plan: seq<Step>) {
    forall k :: 0 <= k < |plan| ==> !plan[k].Piece?
  }

  lemma {:induction false} WithoutPieces(plan: seq<Step>)
    requires HasNoPieces(plan)
    ensures PiecesOf(plan) == [] && BytesOf(plan) == 0
    decreases |plan|
  {
    if plan != [] {
      WithoutPieces(plan[1..]);
    }
  }

  lemma {:induction false} PiecesOfConcat(a: seq<Step>, b: seq<Step>)
    ensures PiecesOf(a + b) == PiecesOf(a) + PiecesOf(b)
    decreases |a|
  {
    if a == [] {
      assert a + b == b;
    } else {
      assert (a + b)[0] == a[0] && (a + b)[1..] == a[1..] + b;
      PiecesOfConcat(a[1..], b);
    }
  }

  /** Total length of the pieces of a plan. */
  function BytesOf(plan: seq<Step>): nat {
    if plan == [] then 0
    else (if plan[0].Piece? then |plan[0].text| else 0) + BytesOf(plan[1..])
  }

  /** Chunks of a list of pieces, numbered from `first`. */
  function Numbered(pieces: seq<Step>, first: nat): (chunks: seq<Chunk>)
    requires forall k :: 0 <= k < |pieces| ==> pieces[k].Piece?
    ensures |chunks| == |pieces|
    ensures forall k :: 0 <= k < |pieces| ==>
              chunks[k] == Chunk(first + k, pieces[k].text, pieces[k].provenance)
  {
    seq(|pieces|, k requires 0 <= k < |pieces| =>
      Chunk(first + k, pieces[k].text, pieces[k].provenance))
  }

  /** The output after the first `k` steps went well: the pieces among them, numbered on from what
      was there, and the running total of their bytes. */
  function SinkAfter(plan: seq<Step>, k: nat, sink: Sink): Sink
    requires k <= |plan|
  {
    Sink(
      sink.chunks + Numbered(PiecesOf(plan[..k]), |sink.chunks|),
      sink.outputBytes + BytesOf(plan[..k]),
      sink.checks + k)
  }

  /** What a run that got through the first `k` steps finds at step `k`. */
  function FailureAt(plan: seq<Step>, k: nat, budget: Budget, sink: Sink): Option<ExtractionError>
    requires k < |plan|
  {
    Finds(plan[k], budget, SinkAfter(plan, k, sink))
  }

  lemma PrefixTail(plan: seq<Step>, k: nat)
    requires 0 < k <= |plan|
    ensures plan[..k][0] == plan[0] && plan[..k][1..] == plan[1..][..k - 1]
    ensures PiecesOf(plan[..k])
            == (if plan[0].Piece? then [plan[0]] else []) + PiecesOf(plan[1..][..k - 1])
    ensures BytesOf(plan[..k])
            == (if plan[0].Piece? then |plan[0].text| else 0) + BytesOf(plan[1..][..k - 1])
  {
    assert plan[..k][1..] == plan[1..][..k - 1];
  }

  lemma SinkAfterTail(plan: seq<Step>, k: nat, sink: Sink)
    requires 0 < k <= |plan|
    ensures SinkAfter(plan, k, sink) == SinkAfter(plan[1..], k - 1, Advance(plan[0], sink))
  {
    PrefixTail(plan, k);
    var next := Advance(plan[0], sink);
    var rest := PiecesOf(plan[1..][..k - 1]);
    if plan[0].Piece? {
      assert Numbered([plan[0]] + rest, |sink.chunks|)
          == [Chunk(|sink.chunks|, plan[0].text, plan[0].provenance)]
             + Numbered(rest, |next.chunks|);
    } else {
      assert [] + rest == rest;
    }
  }

  lemma SinkAfterNothing(plan: seq<Step>, sink: Sink)
    ensures SinkAfter(plan, 0, sink) == sink
  {
    assert plan[..0] == [];
    assert sink.chunks + [] == sink.chunks;
  }

  /** A run fails with the error of the first failing step of its plan, having emitted exactly
      the pieces before that step. */
  lemma {:induction false} FailsAtFirstFailure(
    plan: seq<Step>, k: nat, budget: Budget, sink: Sink)
    requires k < |plan| && FailureAt(plan, k, budget, sink).Some?
    requires forall j :: 0 <= j < k ==> FailureAt(plan, j, budget, sink).None?
    ensures var error := FailureAt(plan, k, budget, sink);
            Execute(plan, budget, sink)
            == Outcome(Stuck(plan[k], error.value, SinkAfter(plan, k, sink)), error)
    decreases k
  {
    SinkAfterNothing(plan, sink);
    if k > 0 {
      var next := Advance(plan[0], sink);
      assert FailureAt(plan, 0, budget, sink).None?;
      SinkAfterTail(plan, k, sink);
      forall j | 0 <= j < k - 1 ensures FailureAt(plan[1..], j, budget, next).None? {
        SinkAfterTail(plan, j + 1, sink);
        assert FailureAt(plan, j + 1, budget, sink).None?;
      }
      FailsAtFirstFailure(plan[1..], k - 1, budget, next);
    }
  }

  /** A run succeeds when no step of its plan fails, and then its output is all the pieces. */
  lemma {:induction false} SucceedsWithoutFailure(plan: seq<Step>, budget: Budget, sink: Sink)
    requires forall k :: 0 <= k < |plan| ==> FailureAt(plan, k, budget, sink).None?
    ensures Execute(plan, budget, sink) == Outcome(SinkAfter(plan, |plan|, sink), None)
    decreases |plan|
  {
    SinkAfterNothing(plan, sink);
    if plan != [] {
      var next := Advance(plan[0], sink);
      SinkAfterTail(plan, |plan|, sink);
      assert FailureAt(plan, 0, budget, sink).None?;
      forall j | 0 <= j < |plan| - 1 ensures FailureAt(plan[1..], j, budget, next).None? {
        SinkAfterTail(plan, j + 1, sink);
        assert FailureAt(plan, j + 1, budget, sink).None?;
      }
      SucceedsWithoutFailure(plan[1..], budget, next);
    }
  }

  /** The first failing step of a plan, if there is one. */
  lemma {:induction false} FindFirstFailure(
    plan: seq<Step>, upTo: nat, budget: Budget, sink: Sink) returns (k: nat)
    requires upTo <= |plan|
    ensures k <= upTo
    ensures k < upTo ==> FailureAt(plan, k, budget, sink).Some?
    ensures forall j :: 0 <= j < k ==> FailureAt(plan, j, budget, sink).None?
    decreases upTo
  {
    k := 0;
    while k < upTo && FailureAt(plan, k, budget, sink).None?
      invariant k <= upTo
      invariant forall j :: 0 <= j < k ==> FailureAt(plan, j, budget, sink).None?
    {
      k := k + 1;
    }
  }

  predicate RejectsNothing(plan: seq<Step>) {
    forall k :: 0 <= k < |plan| ==> !plan[k].Reject?
  }

  lemma RejectsNothingConcat(a: seq<Step>, b: seq<Step>)
    ensures RejectsNothing(a + b) <==> RejectsNothing(a) && RejectsNothing(b)
  {
    if RejectsNothing(a + b) {
      forall k | 0 <= k < |a| ensures !a[k].Reject? {
        assert !(a + b)[k].Reject?;
      }
      forall k | 0 <= k < |b| ensures !b[k].Reject? {
        assert !(a + b)[|a| + k].Reject?;
      }
    }
  }

  lemma {:induction false} BytesOfPieces(plan: seq<Step>)
    ensures BytesOf(PiecesOf(plan)) == BytesOf(plan)
    decreases |plan|
  {
    if plan != [] {
      BytesOfPieces(plan[1..]);
      assert (if plan[0].Piece? then [plan[0]] else []) + PiecesOf(plan[1..]) == PiecesOf(plan);
      BytesOfConcat(if plan[0].Piece? then [plan[0]] else [], PiecesOf(plan[1..]));
    }
  }

  /** Control checks number `from` up to `from + count` all pass. */
  ghost predicate Quiet(control: Control, from: nat, count: nat) {
    forall j: nat :: from <= j < from + count ==> control(j).None?
  }

  /** The pieces of a plan fit into what is left of both limits. */
  predicate Fits(plan: seq<Step>, budget: Budget, sink: Sink) {
    && |sink.chunks| + |PiecesOf(plan)| <= budget.maxChunks
    && sink.outputBytes + BytesOf(plan) <= budget.maxOutputBytes
  }

  /** The whole story of a run, read off its plan: it succeeds if and only if the plan rejects
      nothing, no control check fails, and its pieces fit both limits in full. */
  lemma SucceedsIff(plan: seq<Step>, budget: Budget, sink: Sink)
    requires |sink.chunks| <= budget.maxChunks && sink.outputBytes <= budget.maxOutputBytes
    ensures Execute(plan, budget, sink).error.None?
            <==> RejectsNothing(plan) && Quiet(budget.control, sink.checks, |plan|)
                 && Fits(plan, budget, sink)
    ensures Execute(plan, budget, sink).error.None? ==>
              Execute(plan, budget, sink).sink == SinkAfter(plan, |plan|, sink)
  {
    hide Execute, PiecesOf, BytesOf, SinkAfter, Quiet, RejectsNothing;
    if RejectsNothing(plan) && Quiet(budget.control, sink.checks, |plan|)
       && Fits(plan, budget, sink) {
      FitMeansSuccess(plan, budget, sink);
    } else if Execute(plan, budget, sink).error.None? {
      SuccessMeansFit(plan, budget, sink);
      assert false;
    }
  }

  lemma FitMeansSuccess(plan: seq<Step>, budget: Budget, sink: Sink)
    requires RejectsNothing(plan) && Quiet(budget.control, sink.checks, |plan|)
    requires Fits(plan, budget, sink)
    ensures Execute(plan, budget, sink) == Outcome(SinkAfter(plan, |plan|, sink), None)
  {
    hide Execute, PiecesOf, BytesOf;
    forall k | 0 <= k < |plan| ensures FailureAt(plan, k, budget, sink).None? {
      NothingFoundAt(plan, k, budget, sink);
    }
    SucceedsWithoutFailure(plan, budget, sink);
  }

  lemma NothingFoundAt(plan: seq<Step>, k: nat, budget: Budget, sink: Sink)
    requires k < |plan| && RejectsNothing(plan) && Quiet(budget.control, sink.checks, |plan|)
    requires Fits(plan, budget, sink)
    ensures FailureAt(plan, k, budget, sink).None?
  {
    hide PiecesOf, BytesOf;
    MeasuresGrow(plan, k);
    LastStep(plan, k + 1);
    assert budget.control(sink.checks + k).None?;
  }

  lemma SuccessMeansFit(plan: seq<Step>, budget: Budget, sink: Sink)
    requires |sink.chunks| <= budget.maxChunks && sink.outputBytes <= budget.maxOutputBytes
    requires Execute(plan, budget, sink).error.None?
    ensures RejectsNothing(plan) && Quiet(budget.control, sink.checks, |plan|)
    ensures Fits(plan, budget, sink)
  {
    hide Execute, PiecesOf, BytesOf;
    var k := FindFirstFailure(plan, |plan|, budget, sink);
    if k < |plan| {
      FailsAtFirstFailure(plan, k, budget, sink);
    }
    FitsWithoutFailure(plan, |plan|, budget, sink);
    assert plan[..|plan|] == plan;
    forall j: nat | sink.checks <= j < sink.checks + |plan| ensures budget.control(j).None? {
      assert FailureAt(plan, j - sink.checks, budget, sink).None?;
    }
    forall j | 0 <= j < |plan| ensures !plan[j].Reject? {
      assert FailureAt(plan, j, budget, sink).None?;
    }
  }

  /** A prefix has no more pieces and no more bytes than the whole plan. */
  lemma {:induction false} MeasuresGrow(plan: seq<Step>, k: nat)
    requires k < |plan|
    ensures plan[k].Piece? ==> |PiecesOf(plan[..k])| < |PiecesOf(plan)|
    ensures |PiecesOf(plan[..k])| <= |PiecesOf(plan)|
    ensures BytesOf(plan[..k + 1]) <= BytesOf(plan)
    decreases k
  {
    PrefixTail(plan, k + 1);
    if k > 0 {
      PrefixTail(plan, k);
      MeasuresGrow(plan[1..], k - 1);
    } else {
      assert plan[..0] == [];
      assert plan[1..][..0] == [];
    }
  }

  lemma {:induction false} FitsWithoutFailure(plan: seq<Step>, k: nat, budget: Budget, sink: Sink)
    requires k <= |plan|
    requires |sink.chunks| <= budget.maxChunks && sink.outputBytes <= budget.maxOutputBytes
    requires forall j :: 0 <= j < k ==> FailureAt(plan, j, budget, sink).None?
    ensures |sink.chunks| + |PiecesOf(plan[..k])| <= budget.maxChunks
    ensures sink.outputBytes + BytesOf(plan[..k]) <= budget.maxOutputBytes
    decreases k
  {
    if k == 0 {
      assert plan[..0] == [];
    } else {
      FitsWithoutFailure(plan, k - 1, budget, sink);
      assert FailureAt(plan, k - 1, budget, sink).None?;
      LastStep(plan, k);
    }
  }

  lemma LastStep(plan: seq<Step>, k: nat)
    requires 0 < k <= |plan|
    ensures PiecesOf(plan[..k])
            == PiecesOf(plan[..k - 1]) + if plan[k - 1].Piece? then [plan[k - 1]] else []
    ensures BytesOf(plan[..k])
            == BytesOf(plan[..k - 1]) + if plan[k - 1].Piece? then |plan[k - 1].text| else 0
  {
    assert plan[..k] == plan[..k - 1] + [plan[k - 1]];
    PiecesOfConcat(plan[..k - 1], [plan[k - 1]]);
    BytesOfConcat(plan[..k - 1], [plan[k - 1]]);
  }

  lemma {:induction false} BytesOfConcat(a: seq<Step>, b: seq<Step>)
    ensures BytesOf(a + b) == BytesOf(a) + BytesOf(b)
    decreases |a|
  {
    if a == [] {
      assert a + b == b;
    } else {
      assert (a + b)[0] == a[0] && (a + b)[1..] == a[1..] + b;
      BytesOfConcat(a[1..], b);
    }
  }

  /** The first `n` pieces fit what is left of both limits, one more does not. */
  predicate CrossesAt(pieces: seq<Step>, n: nat, budget: Budget, sink: Sink) {
    && n < |pieces| && FitsUpTo(pieces, n, budget, sink) && !FitsUpTo(pieces, n + 1, budget, sink)
  }

  predicate FitsUpTo(pieces: seq<Step>, n: nat, budget: Budget, sink: Sink)
    requires n <= |pieces|
  {
    && |sink.chunks| + n <= budget.maxChunks
    && sink.outputBytes + BytesOf(pieces[..n]) <= budget.maxOutputBytes
  }

  lemma TakeFirst(pieces: seq<Step>, n: nat)
    requires 0 < n <= |pieces| && pieces[0].Piece?
    ensures BytesOf(pieces[..n]) == |pieces[0].text| + BytesOf(pieces[1..][..n - 1])
  {
    assert pieces[..n][1..] == pieces[1..][..n - 1];
  }

  lemma NumberOneMore(pieces: seq<Step>, n: nat, sink: Sink)
    requires 0 < n <= |pieces| && forall k :: 0 <= k < |pieces| ==> pieces[k].Piece?
    ensures var after := Advance(pieces[0], sink);
            after.chunks + Numbered(pieces[1..][..n - 1], |after.chunks|)
            == sink.chunks + Numbered(pieces[..n], |sink.chunks|)
  {
  }

  /** Where nothing else goes wrong, a run fails exactly at the first piece with which the list of all
      pieces crosses a limit, with the error of the limit that is crossed - the chunk limit when both
      are - and it leaves exactly the pieces before. */
  lemma {:induction false} FailsAtCrossing(plan: seq<Step>, n: nat, budget: Budget, sink: Sink)
    requires RejectsNothing(plan) && Quiet(budget.control, sink.checks, |plan|)
    requires CrossesAt(PiecesOf(plan), n, budget, sink)
    ensures var run := Execute(plan, budget, sink);
            && run.error == Some(if |sink.chunks| + n == budget.maxChunks then ChunkLimitExceeded
                                 else OutputTooLarge)
            && run.sink.chunks == sink.chunks + Numbered(PiecesOf(plan)[..n], |sink.chunks|)
    decreases |plan|
  {
    hide Execute, Numbered, BytesOf;
    var tail, after := plan[1..], Advance(plan[0], sink);
    var pieces := PiecesOf(plan);
    assert plan == [plan[0]] + tail;
    ExecuteCons(plan[0], tail, budget, sink);
    assert !plan[0].Reject? && budget.control(sink.checks).None?;
    if plan[0].Gate? {
      assert pieces == PiecesOf(tail);
      FailsAtCrossing(tail, n, budget, after);
    } else {
      assert pieces[0] == plan[0] && pieces[1..] == PiecesOf(tail);
      TakeFirst(pieces, n + 1);
      if n > 0 {
        TakeFirst(pieces, n);
        FailsAtCrossing(tail, n - 1, budget, after);
        NumberOneMore(pieces, n, sink);
      } else {
        NothingYet(pieces, sink);
      }
    }
  }

  lemma NothingYet(pieces: seq<Step>, sink: Sink)
    requires pieces != [] && forall k :: 0 <= k < |pieces| ==> pieces[k].Piece?
    ensures BytesOf(pieces[..0]) == BytesOf(pieces[1..][..0]) == 0
    ensures sink.chunks + Numbered(pieces[..0], |sink.chunks|) == sink.chunks
  {
    assert pieces[..0] == [] && pieces[1..][..0] == [];
  }

  /** There is such a piece whenever the pieces do not all fit. */
  lemma {:induction false} CrossingExists(pieces: seq<Step>, upTo: nat, budget: Budget, sink: Sink)
    returns (n: nat)
    requires |sink.chunks| <= budget.maxChunks && sink.outputBytes <= budget.maxOutputBytes
    requires upTo <= |pieces| && !FitsUpTo(pieces, upTo, budget, sink)
    ensures CrossesAt(pieces, n, budget, sink)
    decreases upTo
  {
    assert pieces[..0] == [];
    n := upTo - 1;
    if !FitsUpTo(pieces, n, budget, sink) {
      n := CrossingExists(pieces, n, budget, sink);
    }
  }

  /** What ends a run at step `k`, after `k` checks that passed and pieces that fitted: an error of the
      plan; else an objection of the control; else a piece that does not fit, where the chunk limit
      comes before the byte limit. */
  ghost predicate EndsAt(
    plan: seq<Step>, k: nat, budget: Budget, sink: Sink, error: ExtractionError)
    requires k < |plan|
  {
    var here := budget.control(sink.checks + k);
    if plan[k].Reject? then error == plan[k].error
    else if here.Some? then error == Stopped(here.value)
    else
      && plan[k].Piece?
      && if |sink.chunks| + |PiecesOf(plan[..k])| == budget.maxChunks then error == ChunkLimitExceeded
         else error == OutputTooLarge
              && sink.outputBytes + BytesOf(plan[..k]) + |plan[k].text| > budget.maxOutputBytes
  }

  /** How a run ends: at the end of its plan, or at the first step that goes wrong; and what it leaves
      is exactly the pieces before, numbered on. */
  lemma RunEnds(plan: seq<Step>, budget: Budget, sink: Sink) returns (k: nat)
    requires |sink.chunks| <= budget.maxChunks && sink.outputBytes <= budget.maxOutputBytes
    ensures k <= |plan| && RejectsNothing(plan[..k]) && Quiet(budget.control, sink.checks, k)
    ensures Fits(plan[..k], budget, sink)
    ensures var run, pieces := Execute(plan, budget, sink), PiecesOf(plan[..k]);
            && run.sink.chunks == sink.chunks + Numbered(pieces, |sink.chunks|)
            && (if k == |plan| then
                  run.error.None? && run.sink.outputBytes == sink.outputBytes + BytesOf(pieces)
                else run.error.Some? && EndsAt(plan, k, budget, sink, run.error.value))
  {
    hide Execute, PiecesOf, BytesOf;
    k := FindFirstFailure(plan, |plan|, budget, sink);
    FitsWithoutFailure(plan, k, budget, sink);
    BytesOfPieces(plan[..k]);
    forall j: nat | sink.checks <= j < sink.checks + k ensures budget.control(j).None? {
      assert FailureAt(plan, j - sink.checks, budget, sink).None?;
    }
    forall j | 0 <= j < k ensures !plan[..k][j].Reject? {
      assert FailureAt(plan, j, budget, sink).None?;
    }
    if k < |plan| {
      FailsAtFirstFailure(plan, k, budget, sink);
    } else {
      SucceedsWithoutFailure(plan, budget, sink);
      assert plan[..|plan|] == plan;
    }
  }

  /** The limits that are admitted, in bytes, chunks, pages, pixels and nanoseconds. */
  lemma AdmittedLimits(limits: Limits)
    ensures limits.Valid()
            <==> && 1 <= limits.maxSourceBytes <= 67_108_864 && 1 <= limits.maxOutputBytes <= 67_108_864
                 && 1 <= limits.maxChunks <= 65_536 && 4 <= limits.maxChunkBytes <= 65_536
                 && limits.maxChunkBytes >= limits.chunkOverlapBytes + 1
                 && 1 <= limits.maxDecompressedBytes <= 67_108_864 && 1 <= limits.maxPdfPages <= 4_096
                 && 32 <= limits.maxImageProbeBytes <= limits.maxImageSourceBytes <= 67_108_864
                 && limits.maxImageProbeBytes <= 8_388_608
                 && 1 <= limits.maxImageDimension <= 100_000
                 && 1 <= limits.maxImagePixels <= 500_000_000
                 && 1 <= limits.maxProcessingNs <= 60_000_000_000
  {
  }
}
