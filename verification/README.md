# DeskGraph in Dafny

DeskGraph indexes the files of a desktop: it extracts their text in bounded chunks, recognises text
in images behind a gate that admits one native call at a time, answers searches over a bounded line
protocol, and records every rename in a journal. This project models the algorithms and protocols of
that work and proves what they promise, for all inputs and all runs.

The core of the model is the *plan*. Every extractor is a loop that asks its control for permission,
emits pieces of text under two running limits, and stops at the first thing that is wrong. The order
in which it does so depends on its input alone; that order is a sequence of steps (`Execution.Step`),
and `Execution.Execute` runs it against limits and a control that may object at any check. The
methods follow the source's loops and are proved equal to the run of a plan; the lemmas about plans
then say when a run succeeds, where it fails and with what, and what it leaves behind. Four chunk
loops become one specification in this way, and an XML parser's run over an event stream is proved
equal to a recursive function on the tree the events come from.

| files | what they model |
|---|---|
| `Utf8`, `Numerals`, `Wrappers` | text as bytes, characters and their boundaries, decimal numerals, options and results |
| `Execution`, `Chunking`, `Session`, `Units`, `Recovery` | plans and their runs, the ranges of overlapping chunks, the four chunk loops, units threaded into one chunk list, and units recovered from it |
| `Source`, `TextExtractor`, `PdfExtractor` | the bounded read loop, plain text with a byte order mark, pages |
| `Xml`, `Nesting`, `Admission`, `Gathering`, `Docx`, `SharedStrings`, `CellReference`, `Sheet`, `SheetContent`, `CellMeaning`, `Workbook` | the event stream and its guard, which streams are those of a tree and which the guard lets through, what a parser hears of a tree and what stands in it, the three parsers, cell names, what cells mean, the order of parts |
| `Spelling`, `WrittenDocument`, `WrittenTable`, `WrittenSheet`, `WrittenWorkbook` | documents and workbooks as they are written, and that what is read of them is what was meant |
| `Boxes`, `OcrOutput`, `OcrGate`, `GateSystem`, `AsyncWait` | OCR boxes and observations, the gate, its callers and workers as interleaved steps, the asynchronous wait |
| `LineGate`, `Response`, `Json` | the framer and the bounded response of the MCP server, and the response as JSON text |
| `Journal`, `VersionName`, `Locale` | the action journal, versioned file names, browser language tags |

What the loops compute is also stated without them, in terms of what goes in and what comes out: the ranges
of a text are the one list that ends and starts as late as it may (`Chunking.RangesAreGreedyIff`); whatever
is written into a document, a string table or a worksheet, in any spelling and among any other elements, is
what is read of it (`WrittenDocument.DocumentIsRead`, `WrittenWorkbook.BookIsRead`); a journal is accepted
exactly when its books balance after each event (`Journal.AcceptedIffBalanced`); and who passes the OCR gate
follows from who was refused and when it was freed (`GateSystem.AdmittedIff`).

Four results are about what does *not* hold in general, with the exact condition under which it does.

- A free gate may have a running worker. It has none, whatever follows, exactly when the flag is not
  claimed while an earlier worker has yet to finish its cleanup (`GateSystem.FreeMeansIdleIff`). That
  at most one worker runs comes from the flag, not from the gate.
- The ends of successive chunks may be the same. They increase on every text exactly when chunks do not
  overlap or exceed the overlap by more than six bytes (`Chunking.EndsIncreaseIff`).
- The three XML parsers lose text under a text element inside a text element, since the end of the
  inner one clears the flag for both. What they emit is proved for every tree the guard lets through;
  it is what stands in the tree exactly when no such text is there (`Docx.StreamEqualsTreeIff`,
  `SharedStrings.TableEqualsTreeIff`, `SheetContent.StreamIsKeptIff`), and in all cases exactly when the
  cells that show any text are the same (`SheetContent.StreamEqualsTreeIff`).
- The search response is the longest prefix of results that fits when measured with the flag it has
  before anything is dropped. Measured with the flag it is sent with, one more result may fit, and
  `Response.OneMoreFitsIff` says exactly when.

## Model

| member | source | states |
|---|---|---|
| Utf8.NextBoundary | crates/extractors/src/lib.rs:388-393 | why four bytes per chunk suffice: from any character boundary before the end of a text there is another one within four bytes |
| Utf8.AlignDownIsLast | crates/extractors/src/lib.rs:485-490 | the step back finds the last boundary in its interval |
| Utf8.AlignDownIsShort | crates/extractors/src/lib.rs:485-490 | the step back passes at most three bytes |
| Utf8.SliceValid | crates/extractors/src/lib.rs:505 | the text between two boundaries is text |
| Utf8.ValidIffEncoded | crates/extractors/src/lib.rs:341-342 | text is well-formed if and only if it is what a sequence of Unicode characters is written as |
| Utf8.CharacterRoundTrip | crates/extractors/src/ooxml.rs:639-643 | every character is read back from the bytes that are pushed for it |
| Utf8.BytesRoundTrip | crates/extractors/src/lib.rs:341-342 | conversely whatever counts as the bytes of one character is what that character is written as |
| Numerals.ParseUnsignedIff | crates/extractors/src/ooxml.rs:1017-1020 | a string is parsed as an index exactly when it is a plus sign or none, zeros and the decimal digits of the index, in range |
| Execution.ExecuteConcat | crates/extractors/src/pdf.rs:70-87 | runs compose: chunk list, byte total and number of checks carry over from one loop to the next, and the first error ends all |
| Execution.FailsAtFirstFailure | crates/extractors/src/lib.rs:480-500 | a run fails with the error of its first failing step, having emitted exactly the pieces before it: a failed check first, then the chunk limit, then the byte limit |
| Execution.SucceedsWithoutFailure | crates/extractors/src/lib.rs:478-528 | a run in which no step fails emits all pieces, numbered on, and adds up their bytes |
| Execution.FindFirstFailure | crates/extractors/src/lib.rs:478-528 | every run has a first failing step or none, so the two cases above are all there are |
| Execution.SucceedsIff | crates/extractors/src/lib.rs:470-528 | a run succeeds if and only if its plan rejects nothing, no check fails and all pieces together fit both limits; then the output is all the pieces |
| Execution.FailsAtCrossing | crates/extractors/src/lib.rs:481-509 | when nothing else goes wrong, a run fails exactly at the first piece with which the list of all pieces crosses a limit, with that limit's error (the chunk limit if both), leaving exactly the pieces before |
| Execution.CrossingExists | crates/extractors/src/lib.rs:481-509 | whenever the pieces do not all fit there is such a first piece |
| Execution.RunEnds | crates/extractors/src/lib.rs:470-528 | how every run ends, for any plan, limits and control: all went well; or, after checks that passed and pieces that fitted, an error of the plan, an objection of the control, or a piece that crosses the chunk limit or else the byte limit; exactly the pieces before are left |
| Chunking.StepFacts | crates/extractors/src/lib.rs:485-525 | one chunk step consumes something, stays within the limit and on boundaries, and the next start is strictly greater, overlapping by nothing or by the overlap and at most three bytes |
| Chunking.RangesCover | crates/extractors/src/lib.rs:470-528 | the ranges of a text are non-empty, aligned and bounded, start at 0, end at its end, have strictly increasing starts and non-decreasing ends, and leave no gaps |
| Chunking.EndsNeverGoBack | crates/extractors/src/lib.rs:521-525 | the next chunk ends no earlier than this one |
| Chunking.EndsIncreaseIff | crates/extractors/src/lib.rs:485-525 | ends increase strictly on every text if and only if the overlap is zero or the chunk limit exceeds it by more than six |
| Chunking.SpacedEndsIncrease | crates/extractors/src/lib.rs:485-525 | under such limits ends increase from any start on |
| Chunking.RepeatingRepeats | crates/extractors/src/lib.rs:485-525 | for all other limits, a text built from them on which the first two chunks have the same end |
| Chunking.RangesProgress | crates/extractors/src/lib.rs:485-525 | each step overlaps by 0 or by overlap to overlap + 3 bytes, and advances by at least max - overlap - 6 when that is positive |
| Chunking.RangesAreGreedyIff | crates/extractors/src/lib.rs:485-525 | a list of ranges is that of the loop if and only if it runs from the start of the text to its end, each chunk ends at the last boundary within the limit, and the next one starts at the last boundary inside it that leaves the whole overlap, or at its end where there is none |
| Chunking.ChunkCount | crates/extractors/src/lib.rs:485-525 | a text of n bytes has at most 1 + (n - 1) / (max - overlap - 6) chunks |
| Chunking.CoveringRangesRebuild | crates/extractors/src/lib.rs:502-516 | round trip: the text is recovered from its chunks and their ranges |
| Chunking.NoOverlapConcatenates | crates/extractors/src/lib.rs:521-525 | without overlap the chunks concatenate to the text |
| Chunking.PiecesAreRanges | crates/extractors/src/ooxml.rs:1034-1090 | the pieces a loop emits are the ranges of its text, with fragment indices counting on |
| Session.OneTurn | crates/extractors/src/lib.rs:480-525 | one turn of any chunk loop, as a step of the plan of what is left of its text |
| Session.Session.Check | crates/extractors/src/lib.rs:415-427 | one check asks the control once, in order |
| Session.Session.ChunkUtf8 | crates/extractors/src/lib.rs:470-528 | the loop equals the run over the pieces of its text; it terminates, and its exits for an empty chunk and for a 32-bit overflow are never taken |
| Session.Session.AppendPageChunks | crates/extractors/src/pdf.rs:114-170 | the same specification, threaded through the caller's chunk list and total |
| Session.Session.AppendStructuralChunks | crates/extractors/src/ooxml.rs:1034-1090 | the same specification, with provenance named by the caller |
| Session.Session.AppendObservation | crates/extractors/src/ocr.rs:477-528 | the same specification, under the byte limit of the provider |
| Units.ThreadedUnits | crates/extractors/src/pdf.rs:70-87 | a list of units succeeds if and only if all are readable, control is quiet and all pieces together fit; ordinals are then 0 to n - 1 and the total is that of all pieces |
| Units.UnitFragments | crates/extractors/src/pdf.rs:123-168 | the pieces of each unit stand after those of the units before it, with fragment indices from 0 |
| Units.BrokenUnitEnds | crates/extractors/src/pdf.rs:70-87 | when nothing else goes wrong, the first unit whose text cannot be had ends the run with its error, and the pieces before it are left |
| Recovery.PiecesTellUnits | crates/extractors/src/ooxml.rs:1034-1090 | the units that have any text, and their texts, are recovered from the pieces, overlaps notwithstanding |
| Recovery.SamePiecesIff | crates/extractors/src/ooxml.rs:1034-1090 | two lists of paragraphs, pages or cells have the same pieces if and only if they have the same units with any text |
| Recovery.PiecesAreFragments | crates/extractors/src/ooxml.rs:1034-1090 | the pieces of a list of units are, for each unit with any text, the slices of its ranges in order, marked with the unit and an index from 0 |
| Source.ReadBoundedSource | crates/extractors/src/lib.rs:429-468 | the read loop equals the run of its plan, and a successful one returns exactly what the source delivered |
| Source.ReadAcceptsIff | crates/extractors/src/lib.rs:429-468 | the loop accepts a source exactly when no read fails and it delivers the declared number of bytes within the limit |
| Source.ReadingEnds | crates/extractors/src/lib.rs:429-468 | how reading goes on after any reads within the limit, with one check before each: a failed read, one that crosses the limit, or the end, after which the size must be the declared one |
| Source.DeliveredInOrder | crates/extractors/src/lib.rs:429-468 | what is delivered is what the reads bring, in their order |
| TextExtractor.Extract | crates/extractors/src/lib.rs:311-356 | text extraction equals the run of its plan, errors in the order of the source |
| TextExtractor.ExtractionSucceedsIff | crates/extractors/src/lib.rs:311-356 | it succeeds if and only if limits and request are admissible, the source is as declared, the content is UTF-8 within the output limit, control is quiet and the chunks fit both limits |
| TextExtractor.ExtractionPublishes | crates/extractors/src/lib.rs:330-356 | a success publishes, for each range, the source bytes at its published byte range, also after a stripped byte order mark; coverage; and the total as the sum of the lengths |
| TextExtractor.PublishedChunksRebuild | crates/extractors/src/lib.rs:330-356 | the content of the source is recovered from what was published |
| TextExtractor.SourceIsPublished | crates/extractors/src/lib.rs:311-356 | for every text, with a byte order mark EF BB BF before it or not: exactly when its source is published, and that the chunks are then those of the text, each under its range shifted by 3 or not at all |
| TextExtractor.OnlyTextIsPublished | crates/extractors/src/lib.rs:330-342 | whatever is published is such a source |
| TextExtractor.RefusedWith | crates/extractors/src/lib.rs:318-342 | which error a request meets first that reads its source as declared: limits, kind, declared size, size of the content, encoding |
| TextExtractor.ChecksMade | crates/extractors/src/lib.rs:327-345 | an extraction that succeeds is checked once at first, for each read, twice at the end of the source, and for each chunk |
| PdfExtractor.ExtractDocument | crates/extractors/src/pdf.rs:54-99 | the extraction of a loaded document equals the run of its plan |
| PdfExtractor.ExtractPages | crates/extractors/src/pdf.rs:70-87 | the page loop, two checks and one chunk loop a page, equals the run over its pages as units |
| PdfExtractor.DocumentSucceedsIff | crates/extractors/src/pdf.rs:54-99 | it succeeds if and only if the document is plain, has a permitted number of pages, all with text, control is quiet and the fragments of all pages fit both limits |
| PdfExtractor.DocumentYields | crates/extractors/src/pdf.rs:70-170 | a document that is extracted yields the fragments of its pages under their numbers, with ordinals from 0 |
| PdfExtractor.RefusedWith | crates/extractors/src/pdf.rs:54-69 | which error a document meets first, before its pages are read |
| PdfExtractor.BrokenPageEnds | crates/extractors/src/pdf.rs:70-87 | a page without text ends the extraction with the error that is reported for it |
| PdfExtractor.ChecksMade | crates/extractors/src/pdf.rs:70-87 | a document that is extracted is checked once at first, twice for each page, and once for each piece |
| Xml.XmlGuard.Observe | crates/extractors/src/ooxml.rs:390-428 | what the guard refuses, and the depth and event count it keeps otherwise |
| Xml.RunConcat | crates/extractors/src/ooxml.rs:575-678 | the run over a stream is the run over its parts, guard and parser state carried over |
| Xml.RunTracksDepth | crates/extractors/src/ooxml.rs:390-437 | whatever the parser, a stream that gets through closes no more elements than are open, and the guard knows how many are |
| Xml.UnbalancedIsRefused | crates/extractors/src/ooxml.rs:430-437 | a stream that closes more elements than are open, or leaves some open, is refused by every parser; that end tags have the names of their start tags is checked by the reader |
| Xml.RunFlattens | crates/extractors/src/ooxml.rs:377-437 | for every parser and every tree the guard admits, the run over the flattened tree is the recursive walk over the tree |
| Admission.AdmitsIff | crates/extractors/src/ooxml.rs:390-428 | the guard lets a stream through if and only if it has at most a million events, all of which pass on their own, and at most 128 elements are open after each |
| Admission.AttributeRefusedWith | crates/extractors/src/ooxml.rs:439-457 | the first attribute that does not pass, or is one too many, decides what a tag is refused for |
| Admission.GuardRefusedWith | crates/extractors/src/ooxml.rs:390-428 | what an event is refused for: the reader and its prefixes first, then the number of events, then the event |
| Admission.MillionIsRefused | crates/extractors/src/ooxml.rs:391-397 | the end of a stream counts as an event: a million others are refused by every parser |
| Admission.ReadableIff | crates/extractors/src/ooxml.rs:390-437 | the trees of which the results below are stated are those of the streams that nest, pass, and have fewer than a million events |
| Xml.ChecksOfStream | crates/extractors/src/ooxml.rs:589-600 | a stream that is taken is checked once for each event, once at its end, and once for each piece |
| Spelling.PartIsRead | crates/extractors/src/ooxml.rs:468-525 | what is made of characters, CDATA sections and references: the five entities, all characters but 31 by number, and nothing else |
| Spelling.InlinesRead | crates/extractors/src/ooxml.rs:617-665 | what is gathered in a paragraph or an item is the text that was written in its text elements, in whatever spelling and whatever stands around and between them, with tabs and line breaks |
| Nesting.NestsIffForest | crates/extractors/src/ooxml.rs:459-466 | a stream whose tags nest by name, as the reader checks, is the stream of one tree and of one only; and only such streams are |
| Xml.StreamTurn | crates/extractors/src/ooxml.rs:589-600 | one turn of every parser loop: check, reader, namespace, guard, reaction |
| Docx.ParseDocx | crates/extractors/src/ooxml.rs:575-678 | the parser loop equals the run of the plan of its stream |
| Gathering.HeardIsUnderIff | crates/extractors/src/ooxml.rs:617-665 | what is heard while the flag is set is never more than what stands under text elements, and is all of it if and only if no text stands where an inner text element has cleared the flag |
| Gathering.ApartIsKept | crates/extractors/src/ooxml.rs:617-665 | with no text element inside a text element nothing is lost |
| Docx.TakesTreeIff | crates/extractors/src/ooxml.rs:575-678 | every tree the guard lets through is taken exactly when no paragraph is inside another one, there are at most 100000, declarations are valid and all text that is heard decodes; otherwise it is refused. The parser then emits exactly the chunks of what is heard in each paragraph, in document order and numbered from 1 |
| Docx.ParsingSucceedsIff | crates/extractors/src/ooxml.rs:575-678 | parsing such a tree succeeds if and only if it is taken, control is quiet and its fragments fit what is left of both limits; the chunks are then those fragments |
| Docx.StreamEqualsTreeIff | crates/extractors/src/ooxml.rs:575-678 | what is emitted is the chunks of the recursive text of each paragraph of the tree if and only if nothing is lost in the document |
| Docx.PlainIsKept | crates/extractors/src/ooxml.rs:617-665 | with no text element inside a text element nothing is lost in the document |
| Docx.NestedTextIsLost | crates/extractors/src/ooxml.rs:617-665 | whatever the head of its root, a document whose events are taken and yield nothing, although a letter stands in its tree |
| Docx.ObjectsWith | crates/extractors/src/ooxml.rs:601-678 | all that the parser itself objects to is invalid XML, but for one paragraph too many |
| WrittenDocument.DocumentIsRead | crates/extractors/src/ooxml.rs:575-678 | round trip: a document is taken exactly when everything in its text elements is legible and it has at most 100000 paragraphs; it then yields the fragments of the texts of the paragraphs as they were written, under their numbers |
| SharedStrings.ParseSharedStrings | crates/extractors/src/ooxml.rs:748-820 | the parser loop equals the run of its plan and returns the table of the accepted stream |
| SharedStrings.TakesTreeIff | crates/extractors/src/ooxml.rs:748-820 | every tree the guard lets through is taken exactly when no item is inside an item, there are at most 65536, declarations are valid and all text that is heard decodes; the pass then returns what is heard in each item and emits nothing |
| SharedStrings.TableEqualsTreeIff | crates/extractors/src/ooxml.rs:748-820 | the table is the text of each item of the tree if and only if nothing is lost in it |
| SharedStrings.PlainIsKept | crates/extractors/src/ooxml.rs:769-798 | with no text element inside a text element nothing is lost in the table |
| SharedStrings.NestedTextIsLost | crates/extractors/src/ooxml.rs:769-798 | whatever the head of its root, a table whose events are taken and yield an empty entry, although a letter stands in its tree |
| SharedStrings.ObjectsWith | crates/extractors/src/ooxml.rs:769-820 | all that the parser itself objects to is invalid XML, but for one item too many and an item inside an item |
| WrittenTable.TableIsRead | crates/extractors/src/ooxml.rs:748-820 | round trip: a table is taken exactly when everything in its text elements is legible and it has at most 65536 items; it then yields their texts as they were written |
| CellReference.IsValidXlsxCellReference | crates/domain/src/extraction.rs:155-181 | the recogniser's loop decides the conditions, and its saturating arithmetic never saturates |
| CellReference.AcceptedIffInGrid | crates/domain/src/extraction.rs:155-181 | a string is accepted if and only if it is the column letters and decimal row of a cell of the grid |
| CellReference.NamesAreDistinct | crates/domain/src/extraction.rs:155-181 | different cells have different names |
| CellReference.LettersRoundTrip | crates/domain/src/extraction.rs:163-170 | the column number read from a column name is the one it was written from |
| CellReference.ColumnRoundTrip | crates/domain/src/extraction.rs:163-170 | every run of capital letters is the name of the column it is read as |
| CellReference.ColumnNameLength | crates/domain/src/extraction.rs:156-162 | names of at most three letters are exactly those of the first 18278 columns |
| Sheet.AttributeMeans | crates/extractors/src/ooxml.rs:983-1006 | the search for an attribute succeeds with a value exactly when all attributes are readable, one and no more has the key, and that is its value and not too large; with none exactly when none has the key |
| Sheet.AttributeValue | crates/extractors/src/ooxml.rs:983-1006 | the loop returns the value of the one attribute with the key, or that there is none; it fails only when neither can be said |
| Sheet.AttributeRefusedWith | crates/extractors/src/ooxml.rs:983-1006 | the search for an attribute fails for size exactly when the first one with the key is too large, and otherwise as invalid |
| Sheet.ParseSheet | crates/extractors/src/ooxml.rs:834-981 | the parser loop equals the run of the plan of its stream |
| Sheet.TakesTreeIff | crates/extractors/src/ooxml.rs:834-981 | every tree the guard lets through is taken exactly when no cell is inside a cell, there are at most 100000, declarations are valid, all text that is heard decodes, and every cell has a grid name and a value, so one index beyond the string table refuses the sheet; the parser then emits the values of the cells without a formula, in document order |
| Sheet.ObjectsWith | crates/extractors/src/ooxml.rs:857-981 | all that the parser itself objects to is invalid XML, but for one cell too many and an attribute of a cell that is too large |
| CellMeaning.ContributesIff | crates/extractors/src/ooxml.rs:1008-1032 | for every head and content of a cell, what it contributes: it must name a cell of the grid; a formula gives nothing, whatever the type; no type or a plain one gives the value as it stands, `inlineStr` the inline text, `s` the string whose index the value denotes; and everything else refuses the sheet |
| CellMeaning.SheetMeansIff | crates/extractors/src/ooxml.rs:834-981 | a sheet is taken exactly when no cell is inside a cell, there are at most 100000, what is heard decodes, and every cell contributes or has a formula; it then yields the fragments of what the cells contribute, under sheet and reference |
| WrittenSheet.PartsRead | crates/extractors/src/ooxml.rs:884-931 | what a cell gathers is the content that was written in it: values, inline text, formulas, a text element in a value or a value in a text element, among any other elements |
| WrittenSheet.SheetIsRead | crates/extractors/src/ooxml.rs:834-1032 | round trip: a worksheet is taken exactly when everything in its values and text elements is legible, it has at most 100000 cells, and every cell contributes; it then yields the fragments of what the cells contribute as they were written |
| SheetContent.ContentIsTreeIff | crates/extractors/src/ooxml.rs:884-931 | what a cell gathers is its content in the tree if and only if no value text is lost and inline text is what it is in the tree |
| SheetContent.StreamEqualsTreeIff | crates/extractors/src/ooxml.rs:834-981 | what is emitted is the chunks of the values of the tree's cells if and only if the cells that show any text are the same, with the same references and texts, as heard and in the tree |
| SheetContent.CellShowsIff | crates/extractors/src/ooxml.rs:1008-1032 | a cell shows what it shows in the tree if and only if, for a raw value, none of its text is lost; for inline text, what is heard is what stands there; for a shared string, both numerals denote equal strings |
| SheetContent.StreamIsKeptIff | crates/extractors/src/ooxml.rs:834-981 | where cells with an index or inline text hear their values in full, that is so if and only if no cell loses text that it shows |
| SheetContent.KeptUnits | crates/extractors/src/ooxml.rs:834-981 | where every cell gathers its content in the tree, the values are those of the tree, whatever the cells show |
| SheetContent.PlainIsKept | crates/extractors/src/ooxml.rs:884-931 | with no value inside a value and no text element inside a text element, a cell gathers its content in the tree |
| SheetContent.NestedValueIsLost | crates/extractors/src/ooxml.rs:884-931 | whatever the head of its root, a worksheet whose events are taken and yield nothing, although a letter stands in its cell |
| Workbook.NumberedPartIff | crates/extractors/src/ooxml.rs:293-302 | a part has number n if and only if its name is prefix, canonical decimal of n and suffix, with n a positive 32-bit number |
| Workbook.SortSorts | crates/extractors/src/ooxml.rs:234 | sorting keeps all parts and orders them by kind and number |
| Workbook.SharedStringsComeFirst | crates/extractors/src/ooxml.rs:139-145 | after sorting, no sheet stands before the shared strings |
| Workbook.OneOrder | crates/extractors/src/ooxml.rs:234 | parts with distinct kinds and numbers have one sorted order, whatever the order in the archive |
| Workbook.ParsePart | crates/extractors/src/ooxml.rs:91-123 | each part goes to its parser, and only shared strings change the table |
| Workbook.ExtractParts | crates/extractors/src/ooxml.rs:81-124 | the loop over the parts equals the run over the sorted parts, with one chunk list |
| Workbook.BookTakenIff | crates/extractors/src/ooxml.rs:81-124 | with the string table, if there is one, before the sheets, the run goes through exactly when every part is taken, and emits the values of the cells of all sheets, shared indices replaced by the strings of the table |
| Workbook.ExtractionSucceedsIff | crates/extractors/src/ooxml.rs:57-136 | for the parts of a workbook in any archive order, with or without a string table, extraction succeeds if and only if every part is taken, control is quiet and the chunks of all values fit both limits; the chunks are then those, numbered from 0 |
| Workbook.ChecksMade | crates/extractors/src/ooxml.rs:81-124 | parts that are taken are checked once for each part, each event, each end of a part, and each piece |
| WrittenWorkbook.BookIsRead | crates/extractors/src/ooxml.rs:81-124 | round trip: a workbook is taken exactly when its table and all its sheets are, and yields the fragments of what the cells contribute as they were written, with the strings of the table as they were written |
| Workbook.BookEqualsTreesIff | crates/extractors/src/ooxml.rs:57-136 | what is emitted is the chunks of the values in the trees, with the strings of the tree of the table, if and only if the cells that show any text are the same, with the same sheets, references and texts |
| Workbook.BookEqualsTrees | crates/extractors/src/ooxml.rs:57-136 | where no cell and no item loses anything, strings and values are those of the trees |
| Boxes.NormalizationIsAccurate | crates/extractors/src/ocr.rs:550-615 | a normalised box is valid and each edge is within half a millionth of its true position; exactly when a rectangle is refused |
| Boxes.UnionIsLeast | crates/extractors/src/ocr.rs:1150-1192 | the union of valid boxes never fails and is the least box around both |
| Boxes.LineBox | crates/extractors/src/ocr.rs:1103-1134 | folding the words of a line never fails and gives the least box around all of them; no words are an error |
| Boxes.LineBoxIgnoresOrder | crates/extractors/src/ocr.rs:1103-1134 | the line box depends on the set of word boxes only, not on order or repetition |
| OcrOutput.Collector.PushUnique | crates/extractors/src/ocr.rs:618-653 | which error comes first, that a repeated observation changes nothing, and that list, key set and total stay consistent and within the limits |
| OcrOutput.ValidateOutput | crates/extractors/src/ocr.rs:426-458 | the validation loop equals the run of its plan |
| OcrOutput.ValidatorAcceptsIff | crates/extractors/src/ocr.rs:426-458 | it accepts exactly the lists within the provider's limits, hence all that the collector collects |
| OcrOutput.BuildExtractionOutput | crates/extractors/src/ocr.rs:460-541 | building the output equals the run of its plan |
| OcrOutput.BuildSucceedsIff | crates/extractors/src/ocr.rs:460-541 | it succeeds if and only if the list is within limits, control is quiet and the fragments fit; observations are numbered from 1 and ordinals from 0 |
| OcrOutput.RequestAdmittedIff | crates/extractors/src/ocr.rs:361-402 | which requests are admitted, in numbers, and which error the others meet first |
| OcrOutput.ProviderLimitsAre | crates/extractors/src/ocr.rs:389-401 | the limits of the provider are the lesser ones of its own and those of the extraction, and never nothing |
| OcrOutput.OutputIsBuiltIff | crates/extractors/src/ocr.rs:426-541 | from end to end, in numbers: for an admitted request the output is built if and only if there are not too many observations, all are usable, control is quiet, and their texts and fragments fit; it is then the fragments of the observations, numbered from 1, with their boxes and confidences |
| OcrOutput.ValidationEnds | crates/extractors/src/ocr.rs:435-458 | which error a list meets first: the first observation that is not usable, or with which there is too much text |
| OcrOutput.ChecksMade | crates/extractors/src/ocr.rs:431-541 | building an output is checked three times, twice for each observation, and once for each piece |
| OcrGate.GateState.TryAcquireAt | crates/extractors/src/ocr.rs:65-90 | when an attempt is admitted, and the gate after it |
| OcrGate.GateState.ReleaseAt | crates/extractors/src/ocr.rs:92-97 | a release frees the gate and starts the time to live of the reservation |
| OcrGate.GateState.ReleaseAfterProviderReturn | crates/extractors/src/ocr.rs:119-137 | a dropped permit releases at once, or leaves the release to the active worker |
| OcrGate.GateState.FinishCleanup | crates/extractors/src/ocr.rs:140-146 | the late release of a worker |
| GateSystem.InvariantHolds | crates/extractors/src/ocr.rs:844-892 | every interleaving of callers, workers and clock keeps the invariant |
| GateSystem.ReachableStatesAreSound | crates/extractors/src/ocr.rs:112-164 | in every reachable state the gate is held if and only if exactly one permit is live, at most one worker owns the flag, and a gate in cleanup has a worker that has not finished |
| GateSystem.NeverStuck | crates/extractors/src/ocr.rs:119-146 | from every such state some run frees the gate |
| GateSystem.CleanupIsFinished | crates/extractors/src/ocr.rs:139-146 | no release is lost: from a gate in cleanup, every run on which the pending worker ends passes through a free gate |
| GateSystem.JoinedReturnFrees | crates/extractors/src/ocr.rs:869-875 | a caller that joins its worker frees the gate without cleanup |
| GateSystem.FreeMeansIdleIff | crates/extractors/src/ocr.rs:844-893 | at a claim that succeeds, what follows without a further late claim keeps a free gate without a worker if and only if no earlier worker has yet to finish its cleanup |
| GateSystem.FreeMeansIdle | crates/extractors/src/ocr.rs:844-893 | in every run from the start without late claims, a free gate has no worker |
| GateSystem.LateClaimGoesWrong | crates/extractors/src/ocr.rs:876-893 | from every late claim on, a run that ends with a free gate and the flag set |
| GateSystem.FreeGateMayHaveWorker | crates/extractors/src/ocr.rs:886-893 | such a run from the start |
| GateSystem.FirstRefusedReserves | crates/extractors/src/ocr.rs:66-74 | the first owner refused by a busy, unreserved gate reserves it |
| GateSystem.BusyRunKeepsReservation | crates/extractors/src/ocr.rs:65-97 | no busy stretch, however long, loses the reservation, and the release at its end gives it the whole time to live |
| GateSystem.WindowRunKeepsGate | crates/extractors/src/ocr.rs:75-86 | within the time to live no run of others changes the gate |
| GateSystem.OthersWaitForExpiry | crates/extractors/src/ocr.rs:75-86 | another owner's attempt fails and changes nothing before the reservation runs out |
| GateSystem.GetsInIff | crates/extractors/src/ocr.rs:65-97 | over whole runs, on a gate that has stayed free since its release an attempt succeeds if and only if it is made by the owner that was refused, or at or after the release plus the time to live |
| GateSystem.RefusedOwnerGetsIn | crates/extractors/src/ocr.rs:65-97 | over whole runs, the reserving owner gets in when it attempts again within the time to live |
| GateSystem.AdmittedIff | crates/extractors/src/ocr.rs:65-97 | in every run from the start, from what has happened alone: an attempt succeeds if and only if the gate is free and nobody has been refused since somebody last got in, or the first who was makes the attempt, or five seconds have passed since the gate was freed |
| AsyncWait.WaitForBoundedOperation | crates/extractors/src/ocr.rs:673-723 | for all answers of operation and control: one cancel at most, one close exactly when the operation is over and last of all, no check left out, results read exactly when it has completed and no check has failed, a result returned only if the check after it passed, and otherwise the first failed check's error |
| AsyncWait.Conclude | crates/extractors/src/ocr.rs:688-722 | the last turn, from any record of a running operation, completes it to one that keeps the promise |
| LineGate.ForwardBoundedLines | apps/mcp/src/main.rs:496-557 | for every division of a stream into buffers, what happens to its lines is a function of the stream alone, and the line held after each piece is all that has arrived of it, or nothing once that is too long |
| LineGate.HeldIsBounded | apps/mcp/src/main.rs:513-520 | the line held is never longer than a frame, for every piece of every division |
| LineGate.PiecesAreStream | apps/mcp/src/main.rs:507-523 | the pieces in which the buffers are taken are the stream |
| LineGate.WritesAcceptedLines | apps/mcp/src/main.rs:536-552 | what is written is exactly the terminated lines within the limit that pass the check; a tail never is |
| LineGate.LinesOfPiece | apps/mcp/src/main.rs:507-523 | a line that arrives in two parts meets the fate of the whole line |
| LineGate.LinesMeetTheirFates | apps/mcp/src/main.rs:536-557 | whatever lines a stream is made of, each is written, too large or rejected on its own account, in order, and an unfinished one at the end is reported |
| LineGate.StreamIsLines | apps/mcp/src/main.rs:507-523 | every stream is made of lines |
| Response.TruncateUtf8 | apps/mcp/src/main.rs:398-407 | the loop cuts as the specification says |
| Response.CutIsLongest | apps/mcp/src/main.rs:398-407 | a cut text is the longest prefix within the limit that ends between characters, at most three bytes short, and flagged exactly when it is not the whole |
| Response.ProjectResponse | apps/mcp/src/main.rs:329-396 | the response always fits as JSON, shows a prefix of the results with their count, is truncated if and only if a result was dropped or a text it shows is not all of it, and that prefix is the longest that fits with the flag of its own texts |
| Response.SizesGrow | apps/mcp/src/main.rs:378-386 | every longer response is larger as JSON, whatever its flag says, so the prefixes that fit are an initial segment |
| Response.ProjectShows | apps/mcp/src/main.rs:339-377 | what is said of a result: all of it as it is, but path and snippet the longest prefixes of at most 2048 bytes that end between characters; no snippet unless one is asked for |
| Json.StringRoundTrip | apps/mcp/src/main.rs:385 | every string is read back from what is written for it in JSON |
| Json.ResponseLength | apps/mcp/src/main.rs:385 | the size by which results are kept or dropped is the length of the response as JSON text |
| Response.FlagIsFree | apps/mcp/src/main.rs:387-391 | setting the flag never makes the response larger, and makes it one byte smaller if it was not set |
| Response.OneMoreFitsIff | apps/mcp/src/main.rs:382-392 | with the flag the response is sent with, one more result would have fitted exactly when the next one is one byte over, is not the last and nothing was cut; two more never fit |
| Response.OneMoreCanFit | apps/mcp/src/main.rs:382-392 | twelve results of a search for three characters that occur in all their paths, of which ten are kept although eleven fill the payload to the last byte |
| Response.TwelveAreDistinct | apps/mcp/src/main.rs:382-392 | their paths are all different |
| Journal.ReduceActionJournal | crates/domain/src/action.rs:132-191 | the loop computes the reduction, which is defined by the last event and the journal before it |
| Journal.ErrorsStay | crates/domain/src/action.rs:132-191 | an error of a journal is the error of every journal that extends it |
| Journal.PrefixAccepted | crates/domain/src/action.rs:132-191 | every prefix of an accepted journal is accepted |
| Journal.AcceptedAreNumbered | crates/domain/src/action.rs:138-147 | accepted journals are numbered 1 to n |
| Journal.TerminalStatesAreFinal | crates/domain/src/action.rs:148-187 | nothing extends an undone plan or one that needs attention |
| Journal.BooksBalance | crates/domain/src/action.rs:148-187 | requests and intents equal their outcomes plus one if pending; one execution and one undo at most; and outside of attention the state alone tells whether the rename is in effect |
| Journal.ExecutedBeforeUndone | crates/domain/src/action.rs:148-187 | the undo is completed only after the execution was |
| Journal.AttentionIsAmbiguous | crates/domain/src/action.rs:163-186 | two journals that need attention, one with and one without a completed execution |
| Journal.AcceptedIffBalanced | crates/domain/src/action.rs:132-191 | the reduction without its table: a journal is accepted if and only if it is numbered from 1 and the books balance in some state after each event; the state is the one in which they balance in the end |
| Journal.ExtendedIffBalanced | crates/domain/src/action.rs:142-187 | an accepted journal is extended by an event exactly when that has the next number and the books still balance; otherwise its number is reported first |
| Journal.WrongStart | crates/domain/src/action.rs:132-141 | a journal that does not start with a preview numbered 1 is refused for its start, whatever follows |
| VersionName.SplitReadsVersion | crates/domain/src/project.rs:317-336 | any prefix, any of the eight markers and any version from 1 to 999999 are read back from the stem they form |
| VersionName.SplitIsVersion | crates/domain/src/project.rs:317-336 | conversely every stem that is split ends in a marker and a canonical decimal in range |
| VersionName.SplitIsText | crates/domain/src/project.rs:329-335 | the cuts of a stem are at character boundaries |
| VersionName.SplitIffVersioned | crates/domain/src/project.rs:317-336 | a stem is split if and only if it ends in a marker and a version |
| VersionName.ReadsWhatIsWritten | crates/domain/src/project.rs:290-315 | a file name written from parts is parsed with the outcome of those parts, extension or not |
| VersionName.AcceptedIffWritten | crates/domain/src/project.rs:290-315 | a name is accepted with a result if and only if it is written from parts with that result |
| VersionName.AcceptedIffComesTo | crates/domain/src/project.rs:290-315 | a name is accepted exactly when it is written from parts whose trimmed base is something and not itself versioned, with a base key of 1 to 1024 bytes and an extension key of at most 64; the result is those keys and the version |
| VersionName.WrittenOneWay | crates/domain/src/project.rs:290-315 | a name is written from one set of parts only |
| VersionName.VersionRoundTrip | crates/domain/src/project.rs:290-315 | a trimmed, unversioned base, any marker, version and extension within the caps give back their keys and the version |
| VersionName.VersionedBaseIsRefused | crates/domain/src/project.rs:297-299 | a base that is itself versioned is refused |
| Locale.ParseSubtags | apps/desktop/src/i18n.ts:92-136 | the greedy loops report script, region and variants of the partition the specification finds |
| Locale.ScanFindsPartition | apps/desktop/src/i18n.ts:92-136 | completeness: greedy consumption never rejects a tag that can be partitioned by the grammar |
| Locale.ScanIsPartition | apps/desktop/src/i18n.ts:92-136 | soundness: what it finds is a partition by the grammar, with distinct singletons |
| Locale.AcceptedIffPartition | apps/desktop/src/i18n.ts:92-136 | a list of subtags is accepted if and only if it has a partition, which is then the only one |
| Locale.TagAcceptedIff | apps/desktop/src/i18n.ts:86-136 | a string is accepted if and only if it has at most 255 characters and is, in lower case, a well-formed partition joined with hyphens; that partition is the only one, and the one reported |
| Locale.ParseBrowserLocale | apps/desktop/src/i18n.ts:86-136 | the shape test on the whole tag, then the loops on its subtags in lower case |
| Locale.SplitJoins | apps/desktop/src/i18n.ts:93 | splitting at hyphens loses nothing |
| Locale.JoinSplits | apps/desktop/src/i18n.ts:93 | conversely parts without hyphens are recovered from their join |
| Locale.ResolveLocale | apps/desktop/src/i18n.ts:156-166 | the stored locale, else the first preference that selects one, else English |
| Locale.ChineseSelects | apps/desktop/src/i18n.ts:138-154 | which locale a Chinese tag selects, on its string: the one its script or region speaks for when neither speaks for the other, the traditional one for a tag with neither and no variants, and else none |
| Locale.LanguageSelects | apps/desktop/src/i18n.ts:138-145 | which locale a tag of any other language selects: English and Japanese their own, the rest none |
| Locale.OthersSelectNothing | apps/desktop/src/i18n.ts:86-136 | a string that is no tag selects none |
| Locale.ClassesAreDisjoint | apps/desktop/src/i18n.ts:99-113 | a subtag is in one class at most of script, region and variant, and which ones are in none |
| Locale.CaseDoesNotMatter | apps/desktop/src/i18n.ts:92 | tags that differ in capitals only are parsed alike |

## Left out

- Presentations: the slide parser is a fourth parser of the same kind and is not part of this model.
- Archives: opening, the checks on entries and sizes, and decompression; a part is given by its kind, its number and its event stream.
- The selection of parts by file name, apart from `numbered_part`, and the test for required parts.
- The XML reader itself: events, resolved namespaces and decoded text are what it yields.
- Trees whose units are empty elements: an empty element is one event, to which the parsers react only for tabs and breaks, and is modelled so.
- SheetContent.StreamIsKeptIff: where a cell with an index or inline text loses value text, the index is another numeral and the inline text may gain what the value loses, so that what is shown may still be the same; SheetContent.StreamEqualsTreeIff and SheetContent.CellShowsIff cover those cells by what they show.
- The PDF library: a document is given as its pages with the text or error the library reports for each, and the reading of the source before it is the one in Source.
- Seeking to the start of a source, and the metadata of extracted output.
- Image extraction, extension routing and header checks.
- The clock: a check of control is an oracle for each successive call, time in the gate is a natural number, and an overflow of an expiry time does not occur.
- Byte totals are natural numbers; under the limits the 64-bit sums of the source do not overflow.
- Boxes.NormalizationIsAccurate: over the reals, with halves rounded up; rounding inside 64-bit floating point and values that are not finite are not part of this model.
- The limit on the number of processed words and the language passes of native OCR.
- Lock poisoning; and the gate of other systems than Windows, which is the gate of this model with no worker ever active.
- AsyncWait.WaitForBoundedOperation: an operation that stays started for ever is not waited for; the wait is stated for those that some day answer otherwise.
- LineGate.ForwardBoundedLines: write errors of the output, and the JSON check on request identifiers, which is any predicate on lines.
- Serialisation of the response never fails; the order and names of its fields are taken as given.
- Trimming and Unicode normalisation in VersionName, which are any functions; file names with Windows path separators.
- Locale tags that are not strings, white space around them, and the storage of the chosen locale.
- The database, the job service, the scanner, the watcher, file identity and the fence.
