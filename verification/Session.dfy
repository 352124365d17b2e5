/**
 The state an extraction mutates - its chunk list, its byte total, and how often it has looked at
 its control - and the chunk loops that work on it. Each loop is proved to do what `Execute` does
 with the pieces of its text.
 */
module Session {
  import opened Wrappers
  import opened Utf8
  import opened Execution
  import opened Chunking

  const U32_LIMIT: nat := 0x1_0000_0000

  function TextLabel(offset: nat): Label {
    (r: Range, index: nat) => ByteRange(offset + r.start, offset + r.end)
  }

  function PageLabel(pageNumber: nat): Label {
    (r: Range, index: nat) => PdfPage(pageNumber, index)
  }

  function ObservationLabel(number: nat, box: BoundingBox, confidence: Option<nat>): Label {
    (r: Range, index: nat) => OcrObservation(number, index, box, confidence)
  }

  /** One turn of a chunk loop, read off the remaining pieces. */
  lemma OneTurn(
    s: Text, start: nat, index: nat, limits: Limits, name: Label, budget: Budget, sink: Sink)
    requires limits.Valid() && start < |s| && IsBoundary(s, start)
    ensures var end := EndOf(s, start, limits.maxChunkBytes);
            var next := NextOf(s, start, end, limits.chunkOverlapBytes);
            && start < end <= |s| && end - start <= limits.maxChunkBytes
            && start < next <= |s| && IsBoundary(s, next)
            && Execute(Pieces(s, start, index, limits, name), budget, sink)
               == Turn(s, start, end, next, index, limits, name, budget, sink)
  {
    hide Execute, AlignDown, ValidFrom, WidthAt;
    StepFacts(s, start, limits.maxChunkBytes, limits.chunkOverlapBytes);
    var end := EndOf(s, start, limits.maxChunkBytes);
    var next := NextOf(s, start, end, limits.chunkOverlapBytes);
    var piece := Piece(s[start..end], name(Range(start, end), index));
    var rest := if end == |s| then [] else Pieces(s, next, index + 1, limits, name);
    assert Pieces(s, start, index, limits, name) == [piece] + rest;
    ExecuteCons(piece, rest, budget, sink);
    ExecuteNothing(budget, Advance(piece, sink));
  }

  function Turn(
    s: Text, start: nat, end: nat, next: nat, index: nat, limits: Limits, name: Label,
    budget: Budget, sink: Sink): Outcome
    requires limits.maxChunkBytes >= 4 && start <= end <= |s|
    requires next <= |s| && IsBoundary(s, next)
  {
    var n, total := sink.checks, sink.outputBytes + (end - start);
    if budget.control(n).Some? then
      Outcome(Sink(sink.chunks, sink.outputBytes, n + 1), Some(Stopped(budget.control(n).value)))
    else if |sink.chunks| >= budget.maxChunks then
      Outcome(Sink(sink.chunks, sink.outputBytes, n + 1), Some(ChunkLimitExceeded))
    else if total > budget.maxOutputBytes then
      Outcome(Sink(sink.chunks, total, n + 1), Some(OutputTooLarge))
    else
      var chunk := Chunk(|sink.chunks|, s[start..end], name(Range(start, end), index));
      var grown := Sink(sink.chunks + [chunk], total, n + 1);
      if end == |s| then Outcome(grown, None)
      else Execute(Pieces(s, next, index + 1, limits, name), budget, grown)
  }

  lemma NothingLeft(
    s: Text, index: nat, limits: Limits, name: Label, budget: Budget, sink: Sink)
    requires limits.maxChunkBytes >= 4
    ensures Execute(Pieces(s, |s|, index, limits, name), budget, sink) == Outcome(sink, None)
  {
    hide ValidFrom, Execute;
    ExecuteNothing(budget, sink);
  }

  lemma WholeUnit(content: Text, limits: Limits, name: Label)
    requires limits.Valid()
    ensures UnitPieces(content, limits, name) == Pieces(content, 0, 0, limits, name)
  {
  }

  class Session {
    const control: Control
    var chunks: seq<Chunk>
    var outputBytes: nat
    var checks: nat

    constructor (control: Control)
      ensures this.control == control && State() == Sink([], 0, 0)
    {
      this.control := control;
      chunks, outputBytes, checks := [], 0, 0;
    }

    function State(): Sink
      reads this
    {
      Sink(chunks, outputBytes, checks)
    }

    function BudgetOf(limits: Limits): Budget {
      Budget(limits.maxChunks, limits.maxOutputBytes, control)
    }

    /** `check_control`. */
    method Check() returns (stop: Option<ControlError>)
      modifies this`checks
      ensures checks == old(checks) + 1 && stop == control(old(checks))
    {
      stop := control(checks);
      checks := checks + 1;
    }

    /** The inner loop of all chunk loops: back to a character boundary, but not past `floor`. */
    static method StepBack(content: Bytes, floor: nat, from: nat) returns (at: nat)
      ensures at == AlignDown(content, floor, from)
    {
      at := from;
      while at > floor && !IsBoundary(content, at)
        invariant AlignDown(content, floor, at) == AlignDown(content, floor, from)
        decreases at
      {
        at := at - 1;
      }
    }

    /** `chunk_utf8`. The exit for a chunk that consumes nothing, and the overflow of a 32-bit
        ordinal, cannot be reached. */
    method ChunkUtf8(content: Text, offset: nat, limits: Limits)
      returns (error: Option<ExtractionError>)
      requires limits.Valid()
      modifies this
      ensures Outcome(State(), error)
           == Execute(UnitPieces(content, limits, TextLabel(offset)), BudgetOf(limits),
                      Sink([], 0, old(checks)))
    {
      hide Execute, Pieces, UnitPieces, AlignDown, ValidFrom, WidthAt;
      WholeUnit(content, limits, TextLabel(offset));
      assert IsBoundary(content, 0);
      hide IsBoundary;
      chunks, outputBytes := [], 0;
      ghost var name, budget := TextLabel(offset), BudgetOf(limits);
      ghost var goal := Execute(UnitPieces(content, limits, name), budget, State());
      ghost var index := 0;
      var start := 0;
      while start < |content|
        invariant start <= |content| && IsBoundary(content, start)
        invariant goal == Execute(Pieces(content, start, index, limits, name), budget, State())
        decreases |content| - start
      {
        OneTurn(content, start, index, limits, name, budget, State());
        var stop := Check();
        if stop.Some? {
          return Some(Stopped(stop.value));
        }
        if |chunks| >= limits.maxChunks {
          return Some(ChunkLimitExceeded);
        }
        var end := StepBack(content, start, Min(start + limits.maxChunkBytes, |content|));
        if end == start {
          assert false;
        }
        outputBytes := outputBytes + (end - start);
        if outputBytes > limits.maxOutputBytes {
          return Some(OutputTooLarge);
        }
        assert |chunks| < U32_LIMIT;
        chunks := chunks + [Chunk(|chunks|, content[start..end],
                                  ByteRange(offset + start, offset + end))];
        index := index + 1;
        if end == |content| {
          break;
        }
        var back := if end >= limits.chunkOverlapBytes then end - limits.chunkOverlapBytes else 0;
        var next := StepBack(content, start, back);
        start := if next > start then next else end;
      }
      if start == |content| {
        NothingLeft(content, index, limits, name, budget, State());
      }
      return None;
    }

    /** `append_page_chunks`. */
    method AppendPageChunks(content: Text, pageNumber: nat, limits: Limits)
      returns (error: Option<ExtractionError>)
      requires limits.Valid()
      modifies this
      ensures Outcome(State(), error)
           == Execute(UnitPieces(content, limits, PageLabel(pageNumber)), BudgetOf(limits),
                      old(State()))
    {
      hide Execute, Pieces, AlignDown, ValidFrom, WidthAt;
      ghost var name, budget := PageLabel(pageNumber), BudgetOf(limits);
      ghost var goal := Execute(UnitPieces(content, limits, name), budget, State());
      var start, fragmentIndex := 0, 0;
      while start < |content|
        invariant start <= |content| && IsBoundary(content, start) && fragmentIndex <= |chunks|
        invariant goal
               == Execute(Pieces(content, start, fragmentIndex, limits, name), budget, State())
        decreases |content| - start
      {
        OneTurn(content, start, fragmentIndex, limits, name, budget, State());
        var stop := Check();
        if stop.Some? {
          return Some(Stopped(stop.value));
        }
        if |chunks| >= limits.maxChunks {
          return Some(ChunkLimitExceeded);
        }
        var end := StepBack(content, start, Min(start + limits.maxChunkBytes, |content|));
        if end == start {
          assert false;
        }
        outputBytes := outputBytes + (end - start);
        if outputBytes > limits.maxOutputBytes {
          return Some(OutputTooLarge);
        }
        assert |chunks| < U32_LIMIT;
        chunks := chunks + [Chunk(|chunks|, content[start..end],
                                  PdfPage(pageNumber, fragmentIndex))];
        fragmentIndex := fragmentIndex + 1;
        assert fragmentIndex < U32_LIMIT;
        if end == |content| {
          break;
        }
        var back := if end >= limits.chunkOverlapBytes then end - limits.chunkOverlapBytes else 0;
        var next := StepBack(content, start, back);
        start := if next > start then next else end;
      }
      if start == |content| {
        NothingLeft(content, fragmentIndex, limits, name, budget, State());
      }
      return None;
    }

    /** `append_structural_chunks`, whose caller names the fragments. */
    method AppendStructuralChunks(content: Text, limits: Limits, name: Label)
      returns (error: Option<ExtractionError>)
      requires limits.Valid()
      modifies this
      ensures Outcome(State(), error)
           == Execute(UnitPieces(content, limits, name), BudgetOf(limits), old(State()))
    {
      hide Execute, Pieces, AlignDown, ValidFrom, WidthAt;
      ghost var budget := BudgetOf(limits);
      ghost var goal := Execute(UnitPieces(content, limits, name), budget, State());
      var start, fragmentIndex := 0, 0;
      while start < |content|
        invariant start <= |content| && IsBoundary(content, start) && fragmentIndex <= |chunks|
        invariant goal
               == Execute(Pieces(content, start, fragmentIndex, limits, name), budget, State())
        decreases |content| - start
      {
        OneTurn(content, start, fragmentIndex, limits, name, budget, State());
        var stop := Check();
        if stop.Some? {
          return Some(Stopped(stop.value));
        }
        if |chunks| >= limits.maxChunks {
          return Some(ChunkLimitExceeded);
        }
        var end := StepBack(content, start, Min(start + limits.maxChunkBytes, |content|));
        if end == start {
          assert false;
        }
        outputBytes := outputBytes + (end - start);
        if outputBytes > limits.maxOutputBytes {
          return Some(OutputTooLarge);
        }
        assert |chunks| < U32_LIMIT;
        chunks := chunks + [Chunk(|chunks|, content[start..end],
                                  name(Range(start, end), fragmentIndex))];
        fragmentIndex := fragmentIndex + 1;
        assert fragmentIndex < U32_LIMIT;
        if end == |content| {
          break;
        }
        var back := if end >= limits.chunkOverlapBytes then end - limits.chunkOverlapBytes else 0;
        var next := StepBack(content, start, back);
        start := if next > start then next else end;
      }
      if start == |content| {
        NothingLeft(content, fragmentIndex, limits, name, budget, State());
      }
      return None;
    }

    /** The inner loop of `build_ocr_extraction_output`. Its byte limit is the provider's, and it
        counts the fragment only when there is another one. */
    method AppendObservation(
      content: Text, number: nat, box: BoundingBox, confidence: Option<nat>,
      limits: Limits, maxOutputBytes: nat)
      returns (error: Option<ExtractionError>)
      requires limits.Valid()
      modifies this
      ensures Outcome(State(), error)
           == Execute(UnitPieces(content, limits, ObservationLabel(number, box, confidence)),
                      Budget(limits.maxChunks, maxOutputBytes, control), old(State()))
    {
      hide Execute, Pieces, AlignDown, ValidFrom, WidthAt;
      ghost var name := ObservationLabel(number, box, confidence);
      ghost var budget := Budget(limits.maxChunks, maxOutputBytes, control);
      ghost var goal := Execute(UnitPieces(content, limits, name), budget, State());
      var start, fragmentIndex := 0, 0;
      while start < |content|
        invariant start <= |content| && IsBoundary(content, start) && fragmentIndex <= |chunks|
        invariant goal
               == Execute(Pieces(content, start, fragmentIndex, limits, name), budget, State())
        decreases |content| - start
      {
        OneTurn(content, start, fragmentIndex, limits, name, budget, State());
        var stop := Check();
        if stop.Some? {
          return Some(Stopped(stop.value));
        }
        if |chunks| >= limits.maxChunks {
          return Some(ChunkLimitExceeded);
        }
        var end := StepBack(content, start, Min(start + limits.maxChunkBytes, |content|));
        if end == start {
          assert false;
        }
        outputBytes := outputBytes + (end - start);
        if outputBytes > maxOutputBytes {
          return Some(OutputTooLarge);
        }
        assert |chunks| < U32_LIMIT;
        chunks := chunks + [Chunk(|chunks|, content[start..end],
                                  OcrObservation(number, fragmentIndex, box, confidence))];
        if end == |content| {
          break;
        }
        var back := if end >= limits.chunkOverlapBytes then end - limits.chunkOverlapBytes else 0;
        var next := StepBack(content, start, back);
        start := if next > start then next else end;
        fragmentIndex := fragmentIndex + 1;
        assert fragmentIndex < U32_LIMIT;
      }
      if start == |content| {
        NothingLeft(content, fragmentIndex, limits, name, budget, State());
      }
      return None;
    }
  }
}
