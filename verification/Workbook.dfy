/** `OoxmlTextExtractor::extract` over the selected parts of an archive: their order, and the passes
    over them. */
module Workbook {
  import opened Wrappers
  import opened Utf8
  import opened Numerals
  import opened Execution
  import opened Chunking
  import opened Session
  import opened Units
  import opened Xml
  import opened Recovery
  import Docx
  import SharedStrings
  import Sheet
  import SheetContent

  const U32_MAX: nat := 0xFFFF_FFFF

  /** The kinds of parts, slides apart, in the order in which they are parsed. */
  datatype PartKind = DocxDocument | XlsxSharedStrings | XlsxSheet

  function Rank(kind: PartKind): nat {
    match kind
    case DocxDocument => 0
    case XlsxSharedStrings => 1
    case XlsxSheet => 3
  }

  datatype Part = Part(kind: PartKind, unitNumber: nat, events: seq<Event>)

  /** `numbered_part`. */
  function NumberedPart(name: Bytes, prefix: Bytes, suffix: Bytes): Option<nat> {
    if !(prefix <= name) then None
    else
      var rest := name[|prefix|..];
      if |suffix| > |rest| || rest[|rest| - |suffix|..] != suffix then None
      else
        var number := rest[..|rest| - |suffix|];
        if number == [] || number[0] == ZERO || !AllDigits(number) then None
        else
          var parsed := ParseUnsigned(number, U32_MAX);
          if parsed.None? || parsed.value == 0 then None else parsed
  }

  /** A part is numbered exactly when its name is the canonical decimal of a positive 32-bit number
      between prefix and suffix; so no two part names have the same number. */
  lemma NumberedPartIff(name: Bytes, prefix: Bytes, suffix: Bytes, n: nat)
    ensures NumberedPart(name, prefix, suffix) == Some(n)
            <==> 1 <= n <= U32_MAX && name == prefix + Decimal(n) + suffix
  {
    hide ParseUnsigned, Decimal;
    if NumberedPart(name, prefix, suffix) == Some(n) {
      NumberHasName(name, prefix, suffix, n);
    }
    if 1 <= n <= U32_MAX && name == prefix + Decimal(n) + suffix {
      NameHasNumber(prefix, suffix, n);
    }
  }

  lemma NumberHasName(name: Bytes, prefix: Bytes, suffix: Bytes, n: nat)
    requires NumberedPart(name, prefix, suffix) == Some(n)
    ensures 1 <= n <= U32_MAX && name == prefix + Decimal(n) + suffix
  {
    hide Decimal, NumberOf;
    var rest := name[|prefix|..];
    var number := rest[..|rest| - |suffix|];
    NumeralRoundTrip(number);
    assert number[0] != PLUS;
    assert name == prefix + rest && rest == number + suffix;
  }

  lemma NameHasNumber(prefix: Bytes, suffix: Bytes, n: nat)
    requires 1 <= n <= U32_MAX
    ensures NumberedPart(prefix + Decimal(n) + suffix, prefix, suffix) == Some(n)
  {
    hide Decimal, NumberOf;
    var name := prefix + Decimal(n) + suffix;
    var rest := name[|prefix|..];
    assert rest == Decimal(n) + suffix;
    assert rest[..|rest| - |suffix|] == Decimal(n);
    DecimalRoundTrip(n);
    assert Decimal(n)[0] != PLUS;
  }

  predicate Precedes(a: Part, b: Part) {
    Rank(a.kind) < Rank(b.kind) || (a.kind == b.kind && a.unitNumber <= b.unitNumber)
  }

  /** Inserts a part before the first one that it may precede. */
  function Insert(part: Part, sorted: seq<Part>): seq<Part> {
    if sorted == [] then [part]
    else if Precedes(part, sorted[0]) then [part] + sorted
    else [sorted[0]] + Insert(part, sorted[1..])
  }

  /** The stable sort by kind and unit number. */
  function SortParts(parts: seq<Part>): seq<Part> {
    if parts == [] then [] else Insert(parts[0], SortParts(parts[1..]))
  }

  ghost predicate Sorted(parts: seq<Part>) {
    forall i, j :: 0 <= i < j < |parts| ==> Precedes(parts[i], parts[j])
  }

  lemma {:induction false} InsertKeeps(part: Part, sorted: seq<Part>)
    ensures multiset(Insert(part, sorted)) == multiset([part]) + multiset(sorted)
    decreases |sorted|
  {
    hide Precedes;
    if sorted != [] {
      assert sorted == [sorted[0]] + sorted[1..];
      if !Precedes(part, sorted[0]) {
        InsertKeeps(part, sorted[1..]);
      }
    }
  }

  lemma {:induction false} InsertSorts(part: Part, sorted: seq<Part>)
    requires Sorted(sorted)
    ensures Sorted(Insert(part, sorted))
    decreases |sorted|
  {
    if sorted != [] && !Precedes(part, sorted[0]) {
      var rest := Insert(part, sorted[1..]);
      InsertSorts(part, sorted[1..]);
      InsertKeeps(part, sorted[1..]);
      forall k | 0 <= k < |rest| ensures Precedes(sorted[0], rest[k]) {
        assert rest[k] in multiset(rest);
        assert rest[k] == part || rest[k] in sorted[1..];
      }
    }
  }

  /** Sorting keeps the parts and puts them in order. */
  lemma {:induction false} SortSorts(parts: seq<Part>)
    ensures Sorted(SortParts(parts))
    ensures multiset(SortParts(parts)) == multiset(parts)
    decreases |parts|
  {
    hide Insert, Precedes, Sorted;
    if parts == [] {
      NothingToSort();
    } else {
      SortSorts(parts[1..]);
      InsertSorts(parts[0], SortParts(parts[1..]));
      InsertKeeps(parts[0], SortParts(parts[1..]));
      assert parts == [parts[0]] + parts[1..];
    }
  }

  lemma NothingToSort()
    ensures Sorted([])
  {
  }

  /** No sheet is parsed before the shared strings: after sorting, whatever comes before a shared
      string part is not a sheet. */
  lemma SharedStringsComeFirst(parts: seq<Part>, i: nat, j: nat)
    requires i < j < |SortParts(parts)| && SortParts(parts)[j].kind.XlsxSharedStrings?
    ensures !SortParts(parts)[i].kind.XlsxSheet?
  {
    SortSorts(parts);
    assert Precedes(SortParts(parts)[i], SortParts(parts)[j]);
  }

  /** The run over sorted parts, with the string table read so far. */
  function PartsPlan(parts: seq<Part>, shared: seq<Text>, limits: Limits): seq<Step>
    requires limits.Valid()
  {
    if parts == [] then []
    else
      [Gate] + (PartPlan(parts[0], shared, limits)
                + PartsPlan(parts[1..], TableAfter(parts[0], shared), limits))
  }

  function PartPlan(part: Part, shared: seq<Text>, limits: Limits): seq<Step>
    requires limits.Valid()
  {
    match part.kind
    case DocxDocument => Docx.DocxPlan(part.events, limits)
    case XlsxSharedStrings => SharedStrings.SharedStringsPlan(part.events)
    case XlsxSheet => Sheet.SheetPlan(part.events, limits, part.unitNumber, shared)
  }

  function TableAfter(part: Part, shared: seq<Text>): seq<Text> {
    if part.kind.XlsxSharedStrings? then SharedStrings.TableOf(part.events) else shared
  }

  method ExtractParts(session: Session, parts: seq<Part>, limits: Limits)
    returns (error: Option<ExtractionError>)
    requires limits.Valid()
    modifies session
    ensures Outcome(session.State(), error)
         == Execute(PartsPlan(SortParts(parts), [], limits), session.BudgetOf(limits),
                    old(session.State()))
  {
    hide Execute, ValidFrom, PartPlan, PartsPlan, TableAfter, SortParts;
    ghost var budget := session.BudgetOf(limits);
    var sorted := SortParts(parts);
    ghost var goal := Execute(PartsPlan(sorted, [], limits), budget, session.State());
    var shared: seq<Text> := [];
    assert sorted[0..] == sorted;
    for next := 0 to |sorted|
      invariant goal == Execute(PartsPlan(sorted[next..], shared, limits), budget, session.State())
    {
      ghost var own := PartPlan(sorted[next], shared, limits);
      ghost var rest := PartsPlan(sorted[next + 1..], TableAfter(sorted[next], shared), limits);
      FirstPart(sorted[next..], shared, limits);
      assert sorted[next..][1..] == sorted[next + 1..];
      ExecuteCons(Gate, own + rest, budget, session.State());
      ExecuteConcat(own, rest, budget, Advance(Gate, session.State()));
      var stop := session.Check();
      if stop.Some? {
        return Some(Stopped(stop.value));
      }
      var table, failure := ParsePart(session, sorted[next], shared, limits);
      if failure.Some? {
        return failure;
      }
      shared := table;
    }
    assert sorted[|sorted|..] == [];
    NoPart(shared, limits);
    ExecuteNothing(budget, session.State());
    return None;
  }

  lemma FirstPart(parts: seq<Part>, shared: seq<Text>, limits: Limits)
    requires limits.Valid() && parts != []
    ensures PartsPlan(parts, shared, limits)
         == [Gate] + (PartPlan(parts[0], shared, limits)
                      + PartsPlan(parts[1..], TableAfter(parts[0], shared), limits))
  {
    hide PartPlan, TableAfter;
  }

  lemma NoPart(shared: seq<Text>, limits: Limits)
    requires limits.Valid()
    ensures PartsPlan([], shared, limits) == []
  {
  }

  method ParsePart(session: Session, part: Part, shared: seq<Text>, limits: Limits)
    returns (table: seq<Text>, error: Option<ExtractionError>)
    requires limits.Valid()
    modifies session
    ensures Outcome(session.State(), error)
         == Execute(PartPlan(part, shared, limits), session.BudgetOf(limits), old(session.State()))
    ensures error.None? ==> table == TableAfter(part, shared)
  {
    hide Execute, ValidFrom, Docx.DocxPlan, SharedStrings.SharedStringsPlan, Sheet.SheetPlan,
         SharedStrings.TableOf;
    table := shared;
    match part.kind {
      case DocxDocument =>
        error := Docx.ParseDocx(session, part.events, limits);
      case XlsxSharedStrings =>
        table, error := SharedStrings.ParseSharedStrings(
          session, part.events, session.BudgetOf(limits));
      case XlsxSheet =>
        error := Sheet.ParseSheet(session, part.events, limits, part.unitNumber, shared);
    }
  }

  /** A worksheet of a workbook, as a tree. */
  datatype SheetTree = SheetTree(number: nat, tree: seq<Node>)

  /** A workbook may have no string table. */
  datatype Book = Book(table: Option<seq<Node>>, sheets: seq<SheetTree>)

  /** The guard lets all its parts through. */
  predicate BookReadable(book: Book) {
    && (book.table.Some? ==> Readable(book.table.value))
    && AllSheetsReadable(book.sheets)
  }

  predicate AllSheetsReadable(sheets: seq<SheetTree>) {
    forall k :: 0 <= k < |sheets| ==> Readable(sheets[k].tree)
  }

  function SheetParts(sheets: seq<SheetTree>): (parts: seq<Part>)
    ensures |parts| == |sheets|
  {
    seq(|sheets|, k requires 0 <= k < |sheets| =>
      Part(XlsxSheet, sheets[k].number, Flatten(sheets[k].tree)))
  }

  function PartsOf(book: Book): seq<Part> {
    (if book.table.None? then [] else [Part(XlsxSharedStrings, 0, Flatten(book.table.value))])
    + SheetParts(book.sheets)
  }

  /** The strings that cells refer to by index, as they are heard. */
  function Strings(book: Book): seq<Text> {
    if book.table.None? then [] else SharedStrings.HeardItems(book.table.value)
  }

  predicate SheetsTaken(sheets: seq<SheetTree>, strings: seq<Text>) {
    sheets == []
    || (Sheet.Taken(sheets[0].tree, sheets[0].number, strings) && SheetsTaken(sheets[1..], strings))
  }

  /** The table and every sheet is taken by its parser. */
  predicate Taken(book: Book) {
    && (book.table.Some? ==> SharedStrings.Taken(book.table.value))
    && SheetsTaken(book.sheets, Strings(book))
  }

  /** The values of the cells of all sheets as they are heard, with the strings of the table in their
      places; None when a cell is refused. */
  function SheetsHeard(sheets: seq<SheetTree>, strings: seq<Text>): Option<seq<Unit>> {
    if sheets == [] then Some([])
    else Sheet.Append(Sheet.HeardUnits(sheets[0].tree, sheets[0].number, strings),
                      SheetsHeard(sheets[1..], strings))
  }

  lemma {:induction false} SheetsTakenAreHeard(sheets: seq<SheetTree>, strings: seq<Text>)
    requires SheetsTaken(sheets, strings)
    ensures SheetsHeard(sheets, strings).Some?
    decreases |sheets|
  {
    hide Sheet.HeardUnits, Apart, Count;
    if sheets != [] {
      SheetsTakenAreHeard(sheets[1..], strings);
    }
  }

  function HeardUnits(book: Book): seq<Unit>
    requires Taken(book)
  {
    SheetsTakenAreHeard(book.sheets, Strings(book));
    SheetsHeard(book.sheets, Strings(book)).value
  }

  lemma {:induction false} SheetsTakenIff(
    sheets: seq<SheetTree>, strings: seq<Text>, limits: Limits)
    requires limits.Valid() && AllSheetsReadable(sheets)
    ensures var plan := PartsPlan(SheetParts(sheets), strings, limits);
            var units := SheetsHeard(sheets, strings);
            && (RejectsNothing(plan) <==> SheetsTaken(sheets, strings))
            && (RejectsNothing(plan) ==>
                  units.Some? && PiecesOf(plan) == AllPieces(units.value, limits))
    decreases |sheets|
  {
    hide ValidFrom, Pieces, PiecesOf, AllPieces, RejectsNothing, Sheet.SheetPlan, Sheet.Taken,
         Flatten, Sheet.HeardUnits, Readable;
    if sheets == [] {
      Sheet.NothingYielded(limits);
    } else {
      var first, tail := sheets[0], sheets[1..];
      var own := Sheet.SheetPlan(Flatten(first.tree), limits, first.number, strings);
      var rest := PartsPlan(SheetParts(tail), strings, limits);
      assert SheetParts(sheets)[1..] == SheetParts(tail);
      assert PartsPlan(SheetParts(sheets), strings, limits) == [Gate] + (own + rest);
      Sheet.TakesTreeIff(first.tree, limits, first.number, strings);
      SheetsTakenIff(tail, strings, limits);
      Sheet.NothingYielded(limits);
      RejectsNothingConcat([Gate], own + rest);
      RejectsNothingConcat(own, rest);
      if RejectsNothing(own) && RejectsNothing(rest) {
        PiecesOfConcat([Gate], own + rest);
        PiecesOfConcat(own, rest);
        TakenIsHeard(first, strings);
        AllPiecesConcat(Sheet.HeardUnits(first.tree, first.number, strings).value,
                        SheetsHeard(tail, strings).value, limits);
      }
    }
  }

  lemma TakenIsHeard(sheet: SheetTree, strings: seq<Text>)
    requires Sheet.Taken(sheet.tree, sheet.number, strings)
    ensures Sheet.HeardUnits(sheet.tree, sheet.number, strings).Some?
  {
  }

  /** With the string table, if there is one, before the sheets, the run over the parts of a workbook
      goes through exactly when all of them are taken. It then emits the chunks of the values of the
      cells, where a cell of type `s` shows the string of that index. */
  lemma BookTakenIff(book: Book, limits: Limits)
    requires limits.Valid() && BookReadable(book)
    ensures var plan := PartsPlan(PartsOf(book), [], limits);
            && (RejectsNothing(plan) <==> Taken(book))
            && (RejectsNothing(plan) ==> PiecesOf(plan) == AllPieces(HeardUnits(book), limits))
  {
    hide ValidFrom, Pieces, PiecesOf, AllPieces, RejectsNothing, SharedStrings.SharedStringsPlan,
         SharedStrings.Taken, Flatten, SharedStrings.TableOf, SharedStrings.HeardItems, SheetsTaken,
         SheetsHeard, Readable;
    var strings, sheetsPlan := Strings(book), PartsPlan(SheetParts(book.sheets), [], limits);
    SheetsTakenIff(book.sheets, strings, limits);
    if book.table.None? {
      assert PartsOf(book) == SheetParts(book.sheets);
    } else {
      var table := book.table.value;
      var own := SharedStrings.SharedStringsPlan(Flatten(table));
      var rest := PartsPlan(SheetParts(book.sheets), SharedStrings.TableOf(Flatten(table)), limits);
      assert PartsOf(book)[1..] == SheetParts(book.sheets);
      assert PartsPlan(PartsOf(book), [], limits) == [Gate] + (own + rest);
      SharedStrings.TakesTreeIff(table);
      Sheet.NothingYielded(limits);
      RejectsNothingConcat([Gate], own + rest);
      RejectsNothingConcat(own, rest);
      if RejectsNothing(own) {
        WithoutPieces(own);
        PiecesOfConcat([Gate], own + rest);
        PiecesOfConcat(own, rest);
      }
    }
  }

  /** Sorted so that no part may also stand before an earlier one. */
  ghost predicate StrictlySorted(parts: seq<Part>) {
    forall i, j :: 0 <= i < j < |parts| ==>
      Precedes(parts[i], parts[j]) && !Precedes(parts[j], parts[i])
  }

  /** There is one way only to sort parts of which no two are of the same kind and number. */
  lemma {:induction false} OneOrder(sorted: seq<Part>, strict: seq<Part>)
    requires Sorted(sorted) && StrictlySorted(strict)
    requires multiset(sorted) == multiset(strict)
    ensures sorted == strict
    decreases |sorted|
  {
    hide Precedes, Sorted, StrictlySorted;
    assert |sorted| == |multiset(sorted)| == |strict|;
    if sorted != [] {
      FirstIsFirst(sorted, strict);
      HeadAndRest(sorted);
      HeadAndRest(strict);
      OneOrder(sorted[1..], strict[1..]);
    }
  }

  lemma FirstIsFirst(sorted: seq<Part>, strict: seq<Part>)
    requires Sorted(sorted) && StrictlySorted(strict) && sorted != [] && strict != []
    requires multiset(sorted) == multiset(strict)
    ensures sorted[0] == strict[0]
  {
    hide Precedes;
    assert sorted[0] in multiset(strict) && strict[0] in multiset(sorted);
    var i :| 0 <= i < |strict| && strict[i] == sorted[0];
    var j :| 0 <= j < |sorted| && sorted[j] == strict[0];
  }

  lemma HeadAndRest(parts: seq<Part>)
    requires parts != []
    ensures parts == [parts[0]] + parts[1..]
    ensures multiset(parts[1..]) == multiset(parts) - multiset{parts[0]}
    ensures Sorted(parts) ==> Sorted(parts[1..])
    ensures StrictlySorted(parts) ==> StrictlySorted(parts[1..])
  {
    hide Precedes;
    assert parts == [parts[0]] + parts[1..];
    hide Sorted, StrictlySorted;
    assert Sorted(parts) ==> Sorted(parts[1..]) by {
      RestIsSorted(parts);
    }
    assert StrictlySorted(parts) ==> StrictlySorted(parts[1..]) by {
      RestIsSorted(parts);
    }
  }

  lemma RestIsSorted(parts: seq<Part>)
    requires parts != []
    ensures Sorted(parts) ==> Sorted(parts[1..])
    ensures StrictlySorted(parts) ==> StrictlySorted(parts[1..])
  {
    hide Precedes;
  }

  predicate NumbersIncrease(sheets: seq<SheetTree>) {
    forall i, j :: 0 <= i < j < |sheets| ==> sheets[i].number < sheets[j].number
  }

  lemma PartsAreStrict(book: Book)
    requires NumbersIncrease(book.sheets)
    ensures StrictlySorted(PartsOf(book))
  {
    hide Flatten;
  }

  /** A workbook from end to end: in whatever order the archive lists its parts, its extraction
      succeeds if and only if every part is taken, control never objects, and the chunks of the values
      of all cells fit both limits; those are then the chunks, numbered from 0. */
  lemma ExtractionSucceedsIff(
    parts: seq<Part>, book: Book, limits: Limits, control: Control, checks: nat)
    requires limits.Valid() && BookReadable(book) && NumbersIncrease(book.sheets)
    requires multiset(parts) == multiset(PartsOf(book))
    ensures var budget := Budget(limits.maxChunks, limits.maxOutputBytes, control);
            var plan := PartsPlan(SortParts(parts), [], limits);
            var run := Execute(plan, budget, Sink([], 0, checks));
            && (run.error.None?
                <==> && Taken(book) && Quiet(control, checks, |plan|)
                     && var pieces := AllPieces(HeardUnits(book), limits);
                        |pieces| <= limits.maxChunks && BytesOf(pieces) <= limits.maxOutputBytes)
            && (run.error.None? ==>
                  && Taken(book)
                  && var pieces := AllPieces(HeardUnits(book), limits);
                     && (forall k :: 0 <= k < |pieces| ==> pieces[k].Piece?)
                     && run.sink == Sink(Numbered(pieces, 0), BytesOf(pieces), checks + |plan|))
  {
    hide ValidFrom, PartsPlan, SortParts, HeardUnits, BookReadable, PiecesOf, AllPieces, Taken,
         RejectsNothing, Execute, BytesOf, Quiet, PartsOf, StrictlySorted, Sorted;
    var budget := Budget(limits.maxChunks, limits.maxOutputBytes, control);
    var plan := PartsPlan(PartsOf(book), [], limits);
    PartsAreStrict(book);
    SortSorts(parts);
    OneOrder(SortParts(parts), PartsOf(book));
    BookTakenIff(book, limits);
    SucceedsIff(plan, budget, Sink([], 0, checks));
    BytesOfPieces(plan);
    assert plan[..|plan|] == plan;
  }

  /** The strings that cells refer to by index, as they stand in the tree. */
  function TreeStrings(book: Book): seq<Text> {
    if book.table.None? then [] else SharedStrings.Items(book.table.value)
  }

  /** The values of the cells of all sheets in the tree. */
  function SheetsUnits(sheets: seq<SheetTree>, strings: seq<Text>): Option<seq<Unit>> {
    if sheets == [] then Some([])
    else Sheet.Append(SheetContent.SheetUnits(sheets[0].tree, sheets[0].number, strings),
                      SheetsUnits(sheets[1..], strings))
  }

  lemma {:induction false} SheetsAreIndexed(sheets: seq<SheetTree>, strings: seq<Text>)
    ensures var heard := SheetsHeard(sheets, strings); heard.Some? ==> AllIndexed(heard.value)
    ensures var units := SheetsUnits(sheets, strings); units.Some? ==> AllIndexed(units.value)
    decreases |sheets|
  {
    hide Sheet.HeardUnits, SheetContent.SheetUnits, Indexed;
    if sheets != [] {
      SheetContent.UnitsAreIndexed(sheets[0].tree, sheets[0].number, strings);
      SheetsAreIndexed(sheets[1..], strings);
    }
  }

  /** A workbook that is taken yields the chunks of the values of the cells in its trees, with the
      strings of the tree of its table, if and only if the cells that show any text are the same, with
      the same sheets, references and texts, as they are heard and in the trees. */
  lemma BookEqualsTreesIff(book: Book, limits: Limits)
    requires limits.Valid() && BookReadable(book) && Taken(book)
    requires SheetsUnits(book.sheets, TreeStrings(book)).Some?
    ensures var units := SheetsUnits(book.sheets, TreeStrings(book)).value;
            PiecesOf(PartsPlan(PartsOf(book), [], limits)) == AllPieces(units, limits)
            <==> MarkedUnits(HeardUnits(book)) == MarkedUnits(units)
  {
    hide ValidFrom, PiecesOf, AllPieces, PartsPlan, PartsOf, BookReadable, SheetsTaken, SheetsHeard,
         SheetsUnits, Strings, TreeStrings, Indexed, MarkedUnits, SharedStrings.Taken, RejectsNothing;
    BookTakenIff(book, limits);
    SheetsTakenAreHeard(book.sheets, Strings(book));
    SheetsAreIndexed(book.sheets, Strings(book));
    SheetsAreIndexed(book.sheets, TreeStrings(book));
    SamePiecesIff(HeardUnits(book), SheetsUnits(book.sheets, TreeStrings(book)).value, limits);
  }

  predicate AllContentsKept(sheets: seq<SheetTree>) {
    forall k :: 0 <= k < |sheets| ==> SheetContent.ContentsKept(sheets[k].tree)
  }

  /** Where nothing is lost, the values are those of the trees, and the strings those of the tree of
      the table. */
  lemma BookEqualsTrees(book: Book)
    requires book.table.Some? ==> SharedStrings.TableKept(book.table.value)
    requires AllContentsKept(book.sheets)
    ensures Strings(book) == TreeStrings(book)
    ensures SheetsHeard(book.sheets, Strings(book)) == SheetsUnits(book.sheets, TreeStrings(book))
  {
    hide SharedStrings.TableKept, SharedStrings.HeardItems, SharedStrings.Items, SheetsHeard,
         SheetsUnits;
    if book.table.Some? {
      SharedStrings.HeardItemsIff(book.table.value);
    }
    SheetsEqualTrees(book.sheets, Strings(book));
  }

  lemma {:induction false} SheetsEqualTrees(sheets: seq<SheetTree>, strings: seq<Text>)
    requires AllContentsKept(sheets)
    ensures SheetsHeard(sheets, strings) == SheetsUnits(sheets, strings)
    decreases |sheets|
  {
    hide SheetContent.ContentsKept, Sheet.HeardUnits, SheetContent.SheetUnits;
    if sheets != [] {
      SheetContent.KeptUnits(sheets[0].tree, sheets[0].number, strings);
      SheetsEqualTrees(sheets[1..], strings);
    }
  }

  function AllEvents(parts: seq<Part>): nat {
    if parts == [] then 0 else |parts[0].events| + AllEvents(parts[1..])
  }

  /** The parts of an archive that are all taken are checked once for each part, each event, each end of a
      part, and each piece. */
  lemma {:induction false} ChecksMade(parts: seq<Part>, shared: seq<Text>, limits: Limits)
    requires limits.Valid() && RejectsNothing(PartsPlan(parts, shared, limits))
    ensures var plan := PartsPlan(parts, shared, limits);
            |plan| == 2 * |parts| + AllEvents(parts) + |PiecesOf(plan)|
    decreases |parts|
  {
    hide PartPlan, RejectsNothing, PiecesOf, TableAfter, ValidFrom;
    if parts == [] {
      WithoutPieces([]);
    } else {
      var own := PartPlan(parts[0], shared, limits);
      var rest := PartsPlan(parts[1..], TableAfter(parts[0], shared), limits);
      RejectsNothingConcat([Gate], own + rest);
      RejectsNothingConcat(own, rest);
      WithoutPieces([Gate]);
      PiecesOfConcat([Gate], own + rest);
      PiecesOfConcat(own, rest);
      ChecksOfPart(parts[0], shared, limits);
      ChecksMade(parts[1..], TableAfter(parts[0], shared), limits);
    }
  }

  lemma ChecksOfPart(part: Part, shared: seq<Text>, limits: Limits)
    requires limits.Valid() && RejectsNothing(PartPlan(part, shared, limits))
    ensures var plan := PartPlan(part, shared, limits);
            |plan| == |part.events| + 1 + |PiecesOf(plan)|
  {
    hide RejectsNothing, PiecesOf, Docx.DocxPlan, SharedStrings.SharedStringsPlan, Sheet.SheetPlan;
    match part.kind {
      case DocxDocument => Docx.ChecksMade(part.events, limits);
      case XlsxSharedStrings => SharedStrings.ChecksMade(part.events);
      case XlsxSheet => Sheet.ChecksMade(part.events, limits, part.unitNumber, shared);
    }
  }
}
