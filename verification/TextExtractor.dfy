/** `Utf8TextExtractor::extract`: plain text, from the source bytes to the published chunks. */
module TextExtractor {
  import opened Wrappers
  import opened Utf8
  import opened Execution
  import opened Chunking
  import opened Session
  import opened Source

  datatype MediaKind = PlainText | Markdown | SourceCode | Pdf | Docx | Pptx | Xlsx | Image

  predicate Supports(kind: MediaKind) {
    kind.PlainText? || kind.Markdown? || kind.SourceCode?
  }

  /** Three bytes are skipped when the source starts with a byte order mark. */
  function ContentOffset(bytes: Bytes): (offset: nat)
    ensures offset <= |bytes|
  {
    if |bytes| >= 3 && bytes[0] == 0xEF && bytes[1] == 0xBB && bytes[2] == 0xBF then 3 else 0
  }

  function ContentOf(bytes: Bytes): Bytes {
    bytes[ContentOffset(bytes)..]
  }

  function ContentPlan(bytes: Bytes, limits: Limits): seq<Step>
    requires limits.Valid()
  {
    var content := ContentOf(bytes);
    if |content| > limits.maxOutputBytes then [Reject(OutputTooLarge)]
    else if !Valid(content) then [Reject(InvalidUtf8)]
    else UnitPieces(content, limits, TextLabel(ContentOffset(bytes)))
  }

  predicate Admitted(kind: MediaKind, expected: nat, limits: Limits) {
    limits.Valid() && Supports(kind) && expected <= limits.maxSourceBytes
  }

  function TextPlan(kind: MediaKind, input: seq<Read>, expected: nat, limits: Limits): seq<Step> {
    if !limits.Valid() then [Reject(InvalidLimits)]
    else if !Supports(kind) then [Reject(UnsupportedMediaKind)]
    else if expected > limits.maxSourceBytes then [Reject(SourceTooLarge)]
    else
      [Gate]
      + (ReadPlan(input, 0, expected, limits)
         + if Delivered(input).Some? then ContentPlan(Delivered(input).value, limits) else [])
  }

  method Extract(
    session: Session, kind: MediaKind, input: seq<Read>, expected: nat, limits: Limits)
    returns (error: Option<ExtractionError>)
    requires session.chunks == [] && session.outputBytes == 0
    modifies session
    ensures Outcome(session.State(), error)
         == Execute(TextPlan(kind, input, expected, limits), session.BudgetOf(limits),
                    old(session.State()))
  {
    hide Execute, Pieces, ReadPlan, Delivered, ValidFrom;
    ghost var budget, before := session.BudgetOf(limits), session.State();
    if !limits.Valid() {
      Rejected(InvalidLimits, budget, before);
      return Some(InvalidLimits);
    }
    if !Supports(kind) {
      Rejected(UnsupportedMediaKind, budget, before);
      return Some(UnsupportedMediaKind);
    }
    if expected > limits.maxSourceBytes {
      Rejected(SourceTooLarge, budget, before);
      return Some(SourceTooLarge);
    }
    ghost var reading := ReadPlan(input, 0, expected, limits);
    ghost var content := if Delivered(input).Some? then ContentPlan(Delivered(input).value, limits)
                         else [];
    ExecuteCons(Gate, reading + content, budget, before);
    var stop := session.Check();
    if stop.Some? {
      return Some(Stopped(stop.value));
    }
    ExecuteConcat(reading, content, budget, session.State());
    var bytes, failure := ReadBoundedSource(session, input, expected, limits);
    if failure.Some? {
      return failure;
    }
    ReadingKeepsOutput(input, expected, limits, budget, Advance(Gate, before));
    error := ExtractContent(session, bytes, limits);
  }

  method ExtractContent(session: Session, bytes: Bytes, limits: Limits)
    returns (error: Option<ExtractionError>)
    requires session.chunks == [] && session.outputBytes == 0 && limits.Valid()
    modifies session
    ensures Outcome(session.State(), error)
         == Execute(ContentPlan(bytes, limits), session.BudgetOf(limits), old(session.State()))
  {
    hide Execute, Pieces, ValidFrom;
    var offset := ContentOffset(bytes);
    var content := bytes[offset..];
    if |content| > limits.maxOutputBytes {
      Rejected(OutputTooLarge, session.BudgetOf(limits), session.State());
      return Some(OutputTooLarge);
    }
    if !Valid(content) {
      Rejected(InvalidUtf8, session.BudgetOf(limits), session.State());
      return Some(InvalidUtf8);
    }
    error := session.ChunkUtf8(content, offset, limits);
  }

  lemma ReadingKeepsOutput(
    input: seq<Read>, expected: nat, limits: Limits, budget: Budget, sink: Sink)
    requires sink.chunks == [] && sink.outputBytes == 0
    requires Execute(ReadPlan(input, 0, expected, limits), budget, sink).error.None?
    ensures var after := Execute(ReadPlan(input, 0, expected, limits), budget, sink).sink;
            after.chunks == [] && after.outputBytes == 0
  {
    hide Execute, ReadPlan, Delivered;
    var plan := ReadPlan(input, 0, expected, limits);
    ReadAcceptsIff(input, 0, expected, limits);
    WithoutPieces(plan);
    SucceedsIff(plan, budget, sink);
    assert plan[..|plan|] == plan;
  }

  /** The pieces a text run emits. */
  function TextPieces(bytes: Bytes, limits: Limits): seq<Step>
    requires limits.Valid() && Valid(ContentOf(bytes))
  {
    UnitPieces(ContentOf(bytes), limits, TextLabel(ContentOffset(bytes)))
  }

  lemma ContentPlanFacts(bytes: Bytes, limits: Limits)
    requires limits.Valid()
    ensures RejectsNothing(ContentPlan(bytes, limits))
            <==> |ContentOf(bytes)| <= limits.maxOutputBytes && Valid(ContentOf(bytes))
    ensures Valid(ContentOf(bytes)) && |ContentOf(bytes)| <= limits.maxOutputBytes ==>
              PiecesOf(ContentPlan(bytes, limits)) == TextPieces(bytes, limits)
  {
    hide ValidFrom, PiecesOf, Pieces;
    var plan := ContentPlan(bytes, limits);
    var content := ContentOf(bytes);
    if |content| <= limits.maxOutputBytes && Valid(content) {
      OnlyPieces(content, 0, 0, limits, TextLabel(ContentOffset(bytes)));
    } else {
      assert plan[0].Reject?;
    }
  }

  /** Text extraction succeeds if and only if the limits and the request are admissible, the source
      delivers the declared number of bytes, what follows the byte order mark is UTF-8 within the
      output limit, control never objects, and the chunks fit both limits. */
  lemma ExtractionSucceedsIff(
    kind: MediaKind, input: seq<Read>, expected: nat, limits: Limits, control: Control)
    ensures var budget := Budget(limits.maxChunks, limits.maxOutputBytes, control);
            var plan := TextPlan(kind, input, expected, limits);
            Execute(plan, budget, Sink([], 0, 0)).error.None?
            <==>
            && Admitted(kind, expected, limits)
            && Delivered(input).Some? && |Delivered(input).value| == expected
            && var bytes := Delivered(input).value;
               && Valid(ContentOf(bytes)) && |ContentOf(bytes)| <= limits.maxOutputBytes
               && Quiet(control, 0, |plan|)
               && |TextPieces(bytes, limits)| <= limits.maxChunks
               && BytesOf(TextPieces(bytes, limits)) <= limits.maxOutputBytes
  {
    hide Execute, ReadPlan, Delivered, ValidFrom, Pieces, PiecesOf, BytesOf, RejectsNothing, Quiet;
    var budget := Budget(limits.maxChunks, limits.maxOutputBytes, control);
    var plan := TextPlan(kind, input, expected, limits);
    if !Admitted(kind, expected, limits) {
      Rejected(plan[0].error, budget, Sink([], 0, 0));
    } else {
      SucceedsIff(plan, budget, Sink([], 0, 0));
      TextPlanFacts(kind, input, expected, limits);
    }
  }

  lemma TextPlanFacts(kind: MediaKind, input: seq<Read>, expected: nat, limits: Limits)
    requires Admitted(kind, expected, limits)
    ensures var plan := TextPlan(kind, input, expected, limits);
            RejectsNothing(plan)
            <==> && Delivered(input).Some? && |Delivered(input).value| == expected
                 && Valid(ContentOf(Delivered(input).value))
                 && |ContentOf(Delivered(input).value)| <= limits.maxOutputBytes
    ensures var plan := TextPlan(kind, input, expected, limits);
            RejectsNothing(plan) ==>
              && PiecesOf(plan) == TextPieces(Delivered(input).value, limits)
              && BytesOf(plan) == BytesOf(TextPieces(Delivered(input).value, limits))
  {
    hide ReadPlan, Delivered, ValidFrom, Pieces, PiecesOf, BytesOf, ContentPlan;
    var reading := ReadPlan(input, 0, expected, limits);
    var content := if Delivered(input).Some? then ContentPlan(Delivered(input).value, limits)
                   else [];
    ReadAcceptsIff(input, 0, expected, limits);
    if Delivered(input).Some? {
      ContentPlanFacts(Delivered(input).value, limits);
    }
    RejectsLater(Gate, reading + content);
    RejectsNothingConcat(reading, content);
    WithoutPieces(reading);
    WithoutPieces([Gate]);
    PiecesOfConcat([Gate], reading + content);
    PiecesOfConcat(reading, content);
    BytesOfConcat([Gate], reading + content);
    BytesOfConcat(reading, content);
    if RejectsNothing(content) && Delivered(input).Some? {
      BytesOfPieces(content);
    }
  }

  /** What a successful extraction publishes: chunk k is the text of range k, under its place in the
      source, byte order mark included; the ranges cover the content without gaps; the total is
      the sum of the chunk lengths; and the content can be put together again from the chunks. */
  ghost predicate Published(bytes: Bytes, limits: Limits, sink: Sink)
    requires limits.Valid() && Valid(ContentOf(bytes))
  {
    var offset, content := ContentOffset(bytes), ContentOf(bytes);
    var rs := Ranges(content, 0, limits.maxChunkBytes, limits.chunkOverlapBytes);
    && Covers(content, 0, rs, limits.maxChunkBytes)
    && |sink.chunks| == |rs|
    && (forall k :: 0 <= k < |rs| ==> InPlace(bytes, offset, rs[k], k, sink.chunks[k]))
    && sink.outputBytes == TotalLength(sink.chunks)
  }

  predicate InPlace(bytes: Bytes, offset: nat, r: Range, k: nat, chunk: Chunk) {
    && r.start <= r.end && offset + r.end <= |bytes|
    && chunk.ordinal == k
    && chunk.provenance == ByteRange(offset + r.start, offset + r.end)
    && chunk.text == bytes[offset + r.start..offset + r.end]
  }

  function TotalLength(chunks: seq<Chunk>): nat {
    if chunks == [] then 0 else |chunks[0].text| + TotalLength(chunks[1..])
  }

  lemma {:induction false} TotalOfNumbered(pieces: seq<Step>, first: nat)
    requires forall k :: 0 <= k < |pieces| ==> pieces[k].Piece?
    ensures TotalLength(Numbered(pieces, first)) == BytesOf(pieces)
    decreases |pieces|
  {
    if pieces != [] {
      TotalOfNumbered(pieces[1..], first + 1);
      assert Numbered(pieces, first)[1..] == Numbered(pieces[1..], first + 1);
    }
  }

  lemma ExtractionPublishes(
    kind: MediaKind, input: seq<Read>, expected: nat, limits: Limits, control: Control)
    requires Execute(TextPlan(kind, input, expected, limits),
                     Budget(limits.maxChunks, limits.maxOutputBytes, control),
                     Sink([], 0, 0)).error.None?
    ensures Admitted(kind, expected, limits)
    ensures Delivered(input).Some? && |Delivered(input).value| == expected
    ensures Valid(ContentOf(Delivered(input).value))
    ensures Published(Delivered(input).value, limits,
                      Execute(TextPlan(kind, input, expected, limits),
                              Budget(limits.maxChunks, limits.maxOutputBytes, control),
                              Sink([], 0, 0)).sink)
  {
    hide Execute, ReadPlan, Delivered, ValidFrom, Pieces, PiecesOf, BytesOf, Quiet, TotalLength,
         Covers, Ranges, TextPlan, SinkAfter, InPlace;
    ExtractionSucceedsIff(kind, input, expected, limits, control);
    var bytes := Delivered(input).value;
    PublishedSink(kind, input, expected, limits, control);
    RangesCover(ContentOf(bytes), 0, limits.maxChunkBytes, limits.chunkOverlapBytes);
    ChunksInPlace(bytes, limits);
    TotalOfNumbered(TextPieces(bytes, limits), 0);
  }

  lemma PublishedSink(
    kind: MediaKind, input: seq<Read>, expected: nat, limits: Limits, control: Control)
    requires Execute(TextPlan(kind, input, expected, limits),
                     Budget(limits.maxChunks, limits.maxOutputBytes, control),
                     Sink([], 0, 0)).error.None?
    ensures Admitted(kind, expected, limits) && Delivered(input).Some?
    ensures Valid(ContentOf(Delivered(input).value))
    ensures var sink := Execute(TextPlan(kind, input, expected, limits),
                                Budget(limits.maxChunks, limits.maxOutputBytes, control),
                                Sink([], 0, 0)).sink;
            var pieces := TextPieces(Delivered(input).value, limits);
            && (forall k :: 0 <= k < |pieces| ==> pieces[k].Piece?)
            && sink.chunks == Numbered(pieces, 0)
            && sink.outputBytes == BytesOf(pieces)
  {
    hide Execute, ReadPlan, Delivered, ValidFrom, Pieces, BytesOf, Quiet, TextPlan;
    var plan := TextPlan(kind, input, expected, limits);
    var budget := Budget(limits.maxChunks, limits.maxOutputBytes, control);
    ExtractionSucceedsIff(kind, input, expected, limits, control);
    TextPlanFacts(kind, input, expected, limits);
    SucceedsIff(plan, budget, Sink([], 0, 0));
    assert plan[..|plan|] == plan;
    assert [] + Numbered(PiecesOf(plan), 0) == Numbered(PiecesOf(plan), 0);
  }

  lemma ChunksInPlace(bytes: Bytes, limits: Limits)
    requires limits.Valid() && Valid(ContentOf(bytes))
    ensures var offset, content := ContentOffset(bytes), ContentOf(bytes);
            var rs := Ranges(content, 0, limits.maxChunkBytes, limits.chunkOverlapBytes);
            var pieces := TextPieces(bytes, limits);
            && |pieces| == |rs| && (forall k :: 0 <= k < |pieces| ==> pieces[k].Piece?)
            && forall k :: 0 <= k < |rs| ==>
                 InPlace(bytes, offset, rs[k], k, Numbered(pieces, 0)[k])
  {
    hide ValidFrom, Pieces, Ranges;
    var offset, content := ContentOffset(bytes), ContentOf(bytes);
    var rs := Ranges(content, 0, limits.maxChunkBytes, limits.chunkOverlapBytes);
    var name := TextLabel(offset);
    var pieces := TextPieces(bytes, limits);
    PiecesAreRanges(content, 0, 0, limits, name);
    assert forall k :: 0 <= k < |pieces| ==> IsFragment(content, rs[k], k, name, pieces[k]);
    forall k | 0 <= k < |rs| ensures InPlace(bytes, offset, rs[k], k, Numbered(pieces, 0)[k]) {
      assert IsFragment(content, rs[k], k, name, pieces[k]);
      assert content[rs[k].start..rs[k].end] == bytes[offset + rs[k].start..offset + rs[k].end];
    }
  }

  /** A reader of the published chunks recovers the content of the source. */
  lemma PublishedChunksRebuild(bytes: Bytes, limits: Limits, sink: Sink)
    requires limits.Valid() && Valid(ContentOf(bytes)) && Published(bytes, limits, sink)
    ensures var rs := Ranges(ContentOf(bytes), 0, limits.maxChunkBytes, limits.chunkOverlapBytes);
            && |sink.chunks| == |rs|
            && Rebuild(rs, seq(|rs|, k requires 0 <= k < |rs| => sink.chunks[k].text))
               == ContentOf(bytes)
  {
    hide ValidFrom, Ranges, Rebuild, InPlace, IsText, Covers, TotalLength, ContentOffset;
    var offset, content := ContentOffset(bytes), ContentOf(bytes);
    var rs := Ranges(content, 0, limits.maxChunkBytes, limits.chunkOverlapBytes);
    var texts := seq(|rs|, k requires 0 <= k < |rs| => sink.chunks[k].text);
    forall k | 0 <= k < |rs| ensures IsText(content, rs[k], texts[k]) {
      ChunkIsText(bytes, rs[k], k, sink.chunks[k]);
    }
    CoveringRangesRebuild(content, 0, rs, texts, limits.maxChunkBytes);
  }

  lemma ChunkIsText(bytes: Bytes, r: Range, k: nat, chunk: Chunk)
    requires InPlace(bytes, ContentOffset(bytes), r, k, chunk)
    ensures IsText(ContentOf(bytes), r, chunk.text)
  {
    hide ContentOffset;
    var offset := ContentOffset(bytes);
    assert bytes[offset..][r.start..r.end] == bytes[offset + r.start..offset + r.end];
  }

  /** A source that holds a text, with or without a byte order mark. */
  function SourceBytes(text: Text, marked: bool): Bytes {
    (if marked then [0xEF, 0xBB, 0xBF] else []) + text
  }

  /** Without a mark of its own, the text does not begin like one. */
  predicate Unambiguous(text: Text, marked: bool) {
    marked || !([0xEF, 0xBB, 0xBF] <= text)
  }

  /** The chunks of a text that starts at this offset in its source. */
  function ByteChunks(text: Text, offset: nat, limits: Limits): seq<Chunk>
    requires limits.Valid()
  {
    var rs := Ranges(text, 0, limits.maxChunkBytes, limits.chunkOverlapBytes);
    RangesCover(text, 0, limits.maxChunkBytes, limits.chunkOverlapBytes);
    assert forall k :: 0 <= k < |rs| ==> Sound(text, rs[k], limits.maxChunkBytes);
    seq(|rs|, k requires 0 <= k < |rs| =>
      Chunk(k, text[rs[k].start..rs[k].end], ByteRange(offset + rs[k].start, offset + rs[k].end)))
  }

  /** A source with a text is published as the chunks of that text: the mark, if there is one, is left
      out and counted, whatever follows it. */
  lemma SourceIsPublished(
    kind: MediaKind, input: seq<Read>, expected: nat, limits: Limits, control: Control, text: Text,
    marked: bool)
    requires Delivered(input) == Some(SourceBytes(text, marked)) && Unambiguous(text, marked)
    ensures var plan := TextPlan(kind, input, expected, limits);
            var run := Execute(plan, Budget(limits.maxChunks, limits.maxOutputBytes, control),
                               Sink([], 0, 0));
            && (run.error.None?
                <==> && limits.Valid() && kind in {PlainText, Markdown, SourceCode}
                     && expected == |text| + (if marked then 3 else 0)
                     && expected <= limits.maxSourceBytes && |text| <= limits.maxOutputBytes
                     && Quiet(control, 0, |plan|)
                     && var chunks := ByteChunks(text, if marked then 3 else 0, limits);
                        && |chunks| <= limits.maxChunks
                        && TotalLength(chunks) <= limits.maxOutputBytes)
            && (run.error.None? ==>
                  && run.sink.chunks == ByteChunks(text, if marked then 3 else 0, limits)
                  && run.sink.outputBytes == TotalLength(run.sink.chunks))
  {
    hide Execute, ReadPlan, Delivered, ValidFrom, Pieces, BytesOf, Quiet, TotalLength, Ranges, TextPlan,
         ByteChunks;
    var bytes := SourceBytes(text, marked);
    assert ContentOf(bytes) == text && ContentOffset(bytes) == if marked then 3 else 0;
    ExtractionSucceedsIff(kind, input, expected, limits, control);
    if limits.Valid() {
      NumberedPieces(bytes, limits);
      if Execute(TextPlan(kind, input, expected, limits),
                 Budget(limits.maxChunks, limits.maxOutputBytes, control),
                 Sink([], 0, 0)).error.None? {
        PublishedSink(kind, input, expected, limits, control);
      }
    }
  }

  lemma NumberedPieces(bytes: Bytes, limits: Limits)
    requires limits.Valid() && Valid(ContentOf(bytes))
    ensures var pieces, chunks := TextPieces(bytes, limits),
                                  ByteChunks(ContentOf(bytes), ContentOffset(bytes), limits);
            && |pieces| == |chunks| && (forall k :: 0 <= k < |pieces| ==> pieces[k].Piece?)
            && Numbered(pieces, 0) == chunks && BytesOf(pieces) == TotalLength(chunks)
  {
    hide ValidFrom, Pieces, BytesOf, TotalLength, Ranges, ContentOffset;
    var content := ContentOf(bytes);
    var pieces := TextPieces(bytes, limits);
    var rs := Ranges(content, 0, limits.maxChunkBytes, limits.chunkOverlapBytes);
    ChunksInPlace(bytes, limits);
    TotalOfNumbered(pieces, 0);
    forall k | 0 <= k < |rs|
      ensures Numbered(pieces, 0)[k] == ByteChunks(content, ContentOffset(bytes), limits)[k]
    {
      ChunkIsText(bytes, rs[k], k, Numbered(pieces, 0)[k]);
    }
  }

  /** Nothing but text is published. */
  lemma OnlyTextIsPublished(
    kind: MediaKind, input: seq<Read>, expected: nat, limits: Limits, control: Control)
    returns (text: Text, marked: bool)
    requires Execute(TextPlan(kind, input, expected, limits),
                     Budget(limits.maxChunks, limits.maxOutputBytes, control),
                     Sink([], 0, 0)).error.None?
    ensures Delivered(input) == Some(SourceBytes(text, marked)) && Unambiguous(text, marked)
  {
    hide Execute, ReadPlan, Delivered, ValidFrom, Pieces, BytesOf, Quiet, TextPlan;
    ExtractionSucceedsIff(kind, input, expected, limits, control);
    var bytes := Delivered(input).value;
    text, marked := ContentOf(bytes), [0xEF, 0xBB, 0xBF] <= bytes;
    assert bytes == SourceBytes(text, marked);
  }

  ghost predicate NeverObjects(control: Control) {
    forall n :: control(n).None?
  }

  /** Which error a request meets first that reads its source as declared, and what the limits say of
      what follows the mark before it is decoded. */
  lemma RefusedWith(
    kind: MediaKind, input: seq<Read>, expected: nat, limits: Limits, control: Control)
    requires NeverObjects(control)
    requires Delivered(input).Some? && |Delivered(input).value| == expected
    ensures var bytes := Delivered(input).value;
            var content := if [0xEF, 0xBB, 0xBF] <= bytes then bytes[3..] else bytes;
            var run := Execute(TextPlan(kind, input, expected, limits),
                               Budget(limits.maxChunks, limits.maxOutputBytes, control),
                               Sink([], 0, 0));
            if !limits.Valid() then run.error == Some(InvalidLimits)
            else if kind in {Pdf, Docx, Pptx, Xlsx, Image} then run.error == Some(UnsupportedMediaKind)
            else if expected > limits.maxSourceBytes then run.error == Some(SourceTooLarge)
            else if |content| > limits.maxOutputBytes then run.error == Some(OutputTooLarge)
            else if !Valid(content) then run.error == Some(InvalidUtf8)
            else run.error in {None, Some(ChunkLimitExceeded), Some(OutputTooLarge)}
  {
    hide Execute, ReadPlan, Delivered, ValidFrom, Pieces, PiecesOf, BytesOf, RejectsNothing;
    var bytes := Delivered(input).value;
    assert ContentOf(bytes) == if [0xEF, 0xBB, 0xBF] <= bytes then bytes[3..] else bytes;
    var plan := TextPlan(kind, input, expected, limits);
    var budget := Budget(limits.maxChunks, limits.maxOutputBytes, control);
    var empty := Sink([], 0, 0);
    if !Admitted(kind, expected, limits) {
      Rejected(plan[0].error, budget, empty);
    } else {
      var reading, content := ReadPlan(input, 0, expected, limits), ContentPlan(bytes, limits);
      ExecuteCons(Gate, reading + content, budget, empty);
      var once := Advance(Gate, empty);
      ExecuteConcat(reading, content, budget, once);
      ReadAcceptsIff(input, 0, expected, limits);
      WithoutPieces(reading);
      SucceedsIff(reading, budget, once);
      ReadingKeepsOutput(input, expected, limits, budget, once);
      var read := Execute(reading, budget, once).sink;
      ContentRefusedWith(bytes, limits, budget, read);
    }
  }

  lemma ContentRefusedWith(bytes: Bytes, limits: Limits, budget: Budget, sink: Sink)
    requires limits.Valid() && NeverObjects(budget.control)
    requires |sink.chunks| <= budget.maxChunks && sink.outputBytes <= budget.maxOutputBytes
    ensures var run := Execute(ContentPlan(bytes, limits), budget, sink);
            if |ContentOf(bytes)| > limits.maxOutputBytes then run.error == Some(OutputTooLarge)
            else if !Valid(ContentOf(bytes)) then run.error == Some(InvalidUtf8)
            else run.error in {None, Some(ChunkLimitExceeded), Some(OutputTooLarge)}
  {
    hide Execute, ValidFrom, Pieces, PiecesOf, BytesOf, ContentOffset;
    var plan := ContentPlan(bytes, limits);
    ContentPlanFacts(bytes, limits);
    if RejectsNothing(plan) {
      var k := RunEnds(plan, budget, sink);
    } else {
      Rejected(plan[0].error, budget, sink);
    }
  }

  /** A text that is extracted is checked once at first, for each read, twice at the end of its source, and
      for each chunk. */
  lemma ChecksMade(
    kind: MediaKind, before: seq<Read>, rest: seq<Read>, expected: nat, limits: Limits, text: Text,
    marked: bool)
    requires Admitted(kind, expected, limits) && Delivers(before, expected)
    requires rest == [] || rest[0] == Data([])
    requires Delivered(before + rest) == Some(SourceBytes(text, marked)) && Unambiguous(text, marked)
    requires |text| <= limits.maxOutputBytes
    ensures |TextPlan(kind, before + rest, expected, limits)|
         == |before| + 3 + |ByteChunks(text, if marked then 3 else 0, limits)|
  {
    hide ValidFrom, Pieces, ReadPlan, Delivered, ByteChunks, Ranges;
    var bytes := SourceBytes(text, marked);
    assert ContentOf(bytes) == text && ContentOffset(bytes) == if marked then 3 else 0;
    ReadingEnds(before, rest, expected, 0, expected, limits);
    NumberedPieces(bytes, limits);
  }
}
