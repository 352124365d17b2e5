/** `PdfTextExtractor::extract` over a document that the PDF library has loaded. */
module PdfExtractor {
  import opened Wrappers
  import opened Utf8
  import opened Execution
  import opened Chunking
  import opened Session
  import opened Units
  import opened Recovery

  /** A page, with its text or the error the library reports for it. */
  datatype Page = Page(number: nat, text: Result<Text, ExtractionError>)

  datatype Document =
    | Unreadable(error: ExtractionError)
    | Document(encrypted: bool, pages: seq<Page>)

  /** A page is reached by two checks, one before and one after its text is extracted. */
  function UnitOf(page: Page): Unit {
    if page.text.Ok? then Unit(2, page.text.value, PageLabel(page.number))
    else Broken(1, page.text.error)
  }

  function UnitsOf(pages: seq<Page>): (units: seq<Unit>)
    ensures |units| == |pages| && forall k :: 0 <= k < |pages| ==> units[k] == UnitOf(pages[k])
  {
    seq(|pages|, k requires 0 <= k < |pages| => UnitOf(pages[k]))
  }

  function DocumentPlan(document: Document, limits: Limits): seq<Step>
    requires limits.Valid()
  {
    if document.Unreadable? then [Reject(document.error)]
    else
      [Gate] + if document.encrypted then [Reject(EncryptedPdfUnsupported)]
               else if document.pages == [] then [Reject(InvalidPdf)]
               else if |document.pages| > limits.maxPdfPages then [Reject(PageLimitExceeded)]
               else UnitsPlan(UnitsOf(document.pages), limits)
  }

  method ExtractDocument(session: Session, document: Document, limits: Limits)
    returns (error: Option<ExtractionError>)
    requires limits.Valid()
    modifies session
    ensures Outcome(session.State(), error)
         == Execute(DocumentPlan(document, limits), session.BudgetOf(limits),
                    old(session.State()))
  {
    hide Execute, Pieces, ValidFrom, UnitsPlan;
    ghost var budget, before := session.BudgetOf(limits), session.State();
    if document.Unreadable? {
      Rejected(document.error, budget, before);
      return Some(document.error);
    }
    ExecuteCons(Gate, DocumentPlan(document, limits)[1..], budget, before);
    assert DocumentPlan(document, limits) == [Gate] + DocumentPlan(document, limits)[1..];
    var stop := session.Check();
    if stop.Some? {
      return Some(Stopped(stop.value));
    }
    if document.encrypted {
      Rejected(EncryptedPdfUnsupported, budget, session.State());
      return Some(EncryptedPdfUnsupported);
    }
    if document.pages == [] {
      Rejected(InvalidPdf, budget, session.State());
      return Some(InvalidPdf);
    }
    if |document.pages| > limits.maxPdfPages {
      Rejected(PageLimitExceeded, budget, session.State());
      return Some(PageLimitExceeded);
    }
    error := ExtractPages(session, document.pages, limits);
  }

  method ExtractPages(session: Session, pages: seq<Page>, limits: Limits)
    returns (error: Option<ExtractionError>)
    requires limits.Valid()
    modifies session
    ensures Outcome(session.State(), error)
         == Execute(UnitsPlan(UnitsOf(pages), limits), session.BudgetOf(limits),
                    old(session.State()))
  {
    hide Execute, Pieces, ValidFrom, UnitsPlan;
    ghost var budget := session.BudgetOf(limits);
    ghost var units := UnitsOf(pages);
    ghost var goal := Execute(UnitsPlan(units, limits), budget, session.State());
    assert units[0..] == units;
    for next := 0 to |pages|
      invariant goal == Execute(UnitsPlan(units[next..], limits), budget, session.State())
    {
      UnitsTurn(units[next..], limits, budget, session.State());
      assert units[next..][1..] == units[next + 1..];
      var stop := session.Check();
      if stop.Some? {
        return Some(Stopped(stop.value));
      }
      if pages[next].text.Err? {
        return Some(pages[next].text.error);
      }
      stop := session.Check();
      if stop.Some? {
        return Some(Stopped(stop.value));
      }
      var failure := session.AppendPageChunks(pages[next].text.value, pages[next].number, limits);
      if failure.Some? {
        return failure;
      }
    }
    NoUnitsLeft(limits, budget, session.State());
    return None;
  }

  /** The pages of a document share one chunk list: extraction succeeds if and only if the document
      is plain, has a permitted number of pages, every page has text, control never objects, and the
      fragments of all pages together fit both limits. */
  lemma DocumentSucceedsIff(document: Document, limits: Limits, control: Control)
    requires limits.Valid()
    ensures var budget := Budget(limits.maxChunks, limits.maxOutputBytes, control);
            var run := Execute(DocumentPlan(document, limits), budget, Sink([], 0, 0));
            run.error.None?
            <==>
            && document.Document? && !document.encrypted
            && 1 <= |document.pages| <= limits.maxPdfPages
            && (forall k :: 0 <= k < |document.pages| ==> document.pages[k].text.Ok?)
            && var pieces := AllPieces(UnitsOf(document.pages), limits);
               && Quiet(control, 0, |DocumentPlan(document, limits)|)
               && |pieces| <= limits.maxChunks && BytesOf(pieces) <= limits.maxOutputBytes
  {
    hide Execute, Pieces, ValidFrom, UnitsPlan, AllPieces, BytesOf, PiecesOf, Quiet;
    var budget := Budget(limits.maxChunks, limits.maxOutputBytes, control);
    var plan := DocumentPlan(document, limits);
    SucceedsIff(plan, budget, Sink([], 0, 0));
    if document.Document? && !document.encrypted && 1 <= |document.pages| <= limits.maxPdfPages {
      var units := UnitsOf(document.pages);
      var rest := UnitsPlan(units, limits);
      assert plan == [Gate] + rest;
      RejectsNothingConcat([Gate], rest);
      UnitsRejectNothing(units, limits);
      AllReadableMeansText(document.pages);
      WithoutPieces([Gate]);
      PiecesOfConcat([Gate], rest);
      BytesOfConcat([Gate], rest);
      AllPiecesArePieces(units, limits);
      BytesOfPieces(rest);
    } else {
      assert plan[if document.Unreadable? then 0 else 1].Reject?;
    }
  }

  lemma AllReadableMeansText(pages: seq<Page>)
    ensures AllReadable(UnitsOf(pages))
            <==> forall k :: 0 <= k < |pages| ==> pages[k].text.Ok?
  {
    forall k | 0 <= k < |pages| ensures UnitsOf(pages)[k].Unit? <==> pages[k].text.Ok? {
    }
  }

  /** The pages that have any text, under their numbers. */
  function PageMarks(pages: seq<Page>): (marks: seq<Marked>)
    ensures AllText(marks)
  {
    if pages == [] then []
    else
      (if pages[0].text.Err? || pages[0].text.value == [] then []
       else [Marked(PdfPage(pages[0].number, 0), pages[0].text.value)])
      + PageMarks(pages[1..])
  }

  lemma {:induction false} MarksOfPages(pages: seq<Page>)
    ensures MarkedUnits(UnitsOf(pages)) == PageMarks(pages)
    ensures (forall k :: 0 <= k < |pages| ==> pages[k].text.Ok?) ==> AllIndexed(UnitsOf(pages))
    decreases |pages|
  {
    hide ValidFrom, Indexed;
    if pages != [] {
      MarksOfPages(pages[1..]);
      assert UnitsOf(pages)[1..] == UnitsOf(pages[1..]);
      forall k | 0 <= k < |pages| ensures Indexed(PageLabel(pages[k].number)) {
        PageIsIndexed(pages[k].number);
      }
    }
  }

  lemma PageIsIndexed(number: nat)
    ensures Indexed(PageLabel(number))
  {
  }

  /** A document that is extracted yields the fragments of its pages, under their numbers, with ordinals
      from 0. */
  lemma DocumentYields(document: Document, limits: Limits, control: Control)
    requires limits.Valid()
    requires Execute(DocumentPlan(document, limits),
                     Budget(limits.maxChunks, limits.maxOutputBytes, control),
                     Sink([], 0, 0)).error.None?
    ensures var budget := Budget(limits.maxChunks, limits.maxOutputBytes, control);
            var run := Execute(DocumentPlan(document, limits), budget, Sink([], 0, 0));
            && document.Document?
            && var pieces := Fragments(PageMarks(document.pages), limits);
               && (forall k :: 0 <= k < |pieces| ==> pieces[k].Piece?)
               && run.sink.chunks == Numbered(pieces, 0) && run.sink.outputBytes == BytesOf(pieces)
  {
    hide Execute, Pieces, ValidFrom, UnitsPlan, AllPieces, BytesOf, PiecesOf, Quiet, Fragments,
         PageMarks, MarkedUnits, Indexed, Numbered;
    var plan := DocumentPlan(document, limits);
    var budget := Budget(limits.maxChunks, limits.maxOutputBytes, control);
    DocumentSucceedsIff(document, limits, control);
    var units := UnitsOf(document.pages);
    SucceedsIff(plan, budget, Sink([], 0, 0));
    assert plan == [Gate] + UnitsPlan(units, limits);
    WithoutPieces([Gate]);
    PiecesOfConcat([Gate], UnitsPlan(units, limits));
    AllPiecesArePieces(units, limits);
    assert PiecesOf(plan) == [] + AllPieces(units, limits) == AllPieces(units, limits);
    BytesOfPieces(plan);
    MarksOfPages(document.pages);
    PiecesAreFragments(units, limits);
    assert plan[..|plan|] == plan;
    assert [] + Numbered(PiecesOf(plan), 0) == Numbered(PiecesOf(plan), 0);
  }

  /** Which error a document meets first, before its pages are read. */
  lemma RefusedWith(document: Document, limits: Limits, budget: Budget, sink: Sink)
    requires limits.Valid()
    ensures var run := Execute(DocumentPlan(document, limits), budget, sink);
            if document.Unreadable? then run == Outcome(sink, Some(document.error))
            else if budget.control(sink.checks).Some? then
              run.error == Some(Stopped(budget.control(sink.checks).value))
            else if document.encrypted then run.error == Some(EncryptedPdfUnsupported)
            else if |document.pages| == 0 then run.error == Some(InvalidPdf)
            else if |document.pages| > limits.maxPdfPages then run.error == Some(PageLimitExceeded)
            else run == Execute(UnitsPlan(UnitsOf(document.pages), limits), budget,
                                Sink(sink.chunks, sink.outputBytes, sink.checks + 1))
  {
    hide Execute, Pieces, ValidFrom, UnitsPlan;
    var plan := DocumentPlan(document, limits);
    if document.Unreadable? {
      Rejected(document.error, budget, sink);
    } else {
      assert plan == [Gate] + plan[1..];
      ExecuteCons(Gate, plan[1..], budget, sink);
      if plan[1..] != [] && plan[1].Reject? && |plan| == 2 {
        Rejected(plan[1].error, budget, Advance(Gate, sink));
        assert plan[1..] == [Reject(plan[1].error)];
      }
    }
  }

  /** A page without text ends the extraction with the error that the library reports for it. */
  lemma BrokenPageEnds(document: Document, p: nat, limits: Limits, control: Control)
    requires limits.Valid() && document.Document? && !document.encrypted
    requires p < |document.pages| <= limits.maxPdfPages && document.pages[p].text.Err?
    requires forall k :: 0 <= k < p ==> document.pages[k].text.Ok?
    requires forall n :: control(n).None?
    requires var pieces := Fragments(PageMarks(document.pages[..p]), limits);
             |pieces| <= limits.maxChunks && BytesOf(pieces) <= limits.maxOutputBytes
    ensures var budget := Budget(limits.maxChunks, limits.maxOutputBytes, control);
            Execute(DocumentPlan(document, limits), budget, Sink([], 0, 0)).error
            == Some(document.pages[p].text.error)
  {
    hide Execute, Pieces, ValidFrom, UnitsPlan, AllPieces, BytesOf, Fragments, PageMarks, MarkedUnits,
         Indexed;
    var budget := Budget(limits.maxChunks, limits.maxOutputBytes, control);
    var units := UnitsOf(document.pages);
    RefusedWith(document, limits, budget, Sink([], 0, 0));
    assert units[..p] == UnitsOf(document.pages[..p]);
    MarksOfPages(document.pages[..p]);
    PiecesAreFragments(units[..p], limits);
    BrokenUnitEnds(units, p, limits, budget, Sink([], 0, 1));
  }

  /** A document that is extracted is checked once at first, twice for each page, and once for each piece. */
  lemma ChecksMade(document: Document, limits: Limits)
    requires limits.Valid() && document.Document? && !document.encrypted
    requires 1 <= |document.pages| <= limits.maxPdfPages
    requires forall k :: 0 <= k < |document.pages| ==> document.pages[k].text.Ok?
    ensures |DocumentPlan(document, limits)|
         == 1 + 2 * |document.pages| + |AllPieces(UnitsOf(document.pages), limits)|
  {
    hide ValidFrom, Pieces, UnitsPlan, AllPieces;
    AllReadableMeansText(document.pages);
    ChecksOfUnits(UnitsOf(document.pages), limits);
    TwoForEachPage(document.pages);
  }

  lemma {:induction false} TwoForEachPage(pages: seq<Page>)
    requires forall k :: 0 <= k < |pages| ==> pages[k].text.Ok?
    ensures AllChecks(UnitsOf(pages)) == 2 * |pages|
    decreases |pages|
  {
    if pages != [] {
      TwoForEachPage(pages[1..]);
      assert UnitsOf(pages)[1..] == UnitsOf(pages[1..]);
    }
  }
}
