/** Workbooks as they are written, and what is read of them: the string table, and the cells of all sheets
    with the strings in their places. */
module WrittenWorkbook {
  import opened Wrappers
  import opened Utf8
  import opened Execution
  import opened Units
  import opened Xml
  import opened Recovery
  import opened Workbook
  import Spelling
  import SharedStrings
  import Sheet
  import CellMeaning
  import WrittenTable
  import WrittenSheet

  datatype WrittenPart = WrittenPart(number: nat, blocks: seq<WrittenSheet.SheetBlock>)

  datatype WrittenBook = WrittenBook(table: Option<seq<Spelling.Block>>, sheets: seq<WrittenPart>)

  function Trees(sheets: seq<WrittenPart>): seq<SheetTree> {
    if sheets == [] then []
    else [SheetTree(sheets[0].number, WrittenSheet.SheetTree(sheets[0].blocks))] + Trees(sheets[1..])
  }

  function BookOf(written: WrittenBook): Book {
    Book(if written.table.None? then None else Some(WrittenTable.TableTree(written.table.value)),
         Trees(written.sheets))
  }

  predicate SheetsPlaced(sheets: seq<WrittenPart>) {
    sheets == []
    || (&& WrittenSheet.SheetPlaced(sheets[0].blocks, 0)
        && |Flatten(WrittenSheet.SheetTree(sheets[0].blocks))| < 1_000_000
        && SheetsPlaced(sheets[1..]))
  }

  predicate BookPlaced(written: WrittenBook) {
    && (written.table.Some? ==>
          && Spelling.BlocksPlaced(written.table.value, WrittenTable.T, WrittenTable.SI, 0)
          && |Flatten(WrittenTable.TableTree(written.table.value))| < 1_000_000)
    && SheetsPlaced(written.sheets)
  }

  /** Everything that counts is legible, and there is not too much of it. */
  predicate SheetsLegible(sheets: seq<WrittenPart>) {
    sheets == []
    || (&& WrittenSheet.SheetLegible(sheets[0].blocks)
        && WrittenSheet.CellsOf(sheets[0].blocks) <= 100_000
        && SheetsLegible(sheets[1..]))
  }

  predicate TableLegible(table: Option<seq<Spelling.Block>>) {
    table.Some? ==> Spelling.BlocksLegible(table.value) && |TableTexts(table)| <= 65_536
  }

  /** The strings of the table as they were written. */
  function TableTexts(table: Option<seq<Spelling.Block>>): seq<Text> {
    if table.None? then [] else Spelling.BlocksTexts(table.value, false)
  }

  /** What the cells of all sheets contribute, with these strings. */
  ghost predicate SheetsShow(sheets: seq<WrittenPart>, strings: seq<Text>, marks: seq<Marked>) {
    if sheets == [] then marks == []
    else
      exists k ::
        && 0 <= k <= |marks|
        && WrittenSheet.SheetShows(sheets[0].blocks, sheets[0].number, strings, marks[..k])
        && SheetsShow(sheets[1..], strings, marks[k..])
  }

  lemma {:induction false} BookIsReadable(sheets: seq<WrittenPart>)
    requires SheetsPlaced(sheets)
    ensures AllSheetsReadable(Trees(sheets))
    decreases |sheets|
  {
    hide Readable, WrittenSheet.SheetPlaced, Flatten;
    if sheets != [] {
      WrittenSheet.SheetIsReadable(sheets[0].blocks);
      BookIsReadable(sheets[1..]);
    }
  }

  lemma {:induction false} SheetsShowIff(
    sheets: seq<WrittenPart>, strings: seq<Text>, marks: seq<Marked>)
    requires SheetsPlaced(sheets)
    ensures SheetsShow(sheets, strings, marks)
            <==> && SheetsHeard(Trees(sheets), strings).Some?
                 && MarkedUnits(SheetsHeard(Trees(sheets), strings).value) == marks
    decreases |sheets|
  {
    hide MarkedUnits, WrittenSheet.SheetShows, WrittenSheet.SheetPlaced, Sheet.HeardUnits, Flatten,
         WrittenSheet.SheetTree;
    if sheets == [] {
      CellMeaning.NoMarks();
    } else {
      var first := Trees(sheets)[0];
      assert Trees(sheets)[1..] == Trees(sheets[1..]);
      var own := Sheet.HeardUnits(first.tree, first.number, strings);
      var rest := SheetsHeard(Trees(sheets[1..]), strings);
      CellMeaning.AppendMarks(own, rest, marks);
      forall k | 0 <= k <= |marks|
        ensures WrittenSheet.SheetShows(sheets[0].blocks, sheets[0].number, strings, marks[..k])
                <==> own.Some? && MarkedUnits(own.value) == marks[..k]
        ensures SheetsShow(sheets[1..], strings, marks[k..])
                <==> rest.Some? && MarkedUnits(rest.value) == marks[k..]
      {
        WrittenSheet.SheetShowsIff(sheets[0].blocks, 0, first.number, strings, marks[..k]);
        CellMeaning.SheetContributesIff(first.tree, first.number, strings, marks[..k]);
        SheetsShowIff(sheets[1..], strings, marks[k..]);
      }
    }
  }

  lemma {:induction false} SheetsTakenIff(sheets: seq<WrittenPart>, strings: seq<Text>)
    requires SheetsPlaced(sheets)
    ensures SheetsTaken(Trees(sheets), strings)
            <==> SheetsLegible(sheets) && SheetsHeard(Trees(sheets), strings).Some?
    decreases |sheets|
  {
    hide WrittenSheet.SheetPlaced, WrittenSheet.SheetLegible, WrittenSheet.CellsOf, Flatten,
         WrittenSheet.SheetTree, Apart, Count, Sheet.HeardUnits, Sheet.SheetDecodes;
    if sheets != [] {
      assert Trees(sheets)[1..] == Trees(sheets[1..]);
      WrittenSheet.SheetReads(sheets[0].blocks, 0);
      SheetsTakenIff(sheets[1..], strings);
    }
  }

  lemma TableTakenIff(table: seq<Spelling.Block>)
    requires Spelling.BlocksPlaced(table, WrittenTable.T, WrittenTable.SI, 0)
    ensures SharedStrings.Taken(WrittenTable.TableTree(table)) <==> TableLegible(Some(table))
    ensures SharedStrings.HeardItems(WrittenTable.TableTree(table)) == TableTexts(Some(table))
  {
    hide WrittenTable.TableTree, Spelling.BlocksPlaced, Apart, Count, SharedStrings.HeardItems,
         SharedStrings.TableDecodes, Spelling.BlocksTexts, Spelling.BlocksLegible;
    WrittenTable.BlocksRead(table, 0);
  }

  /** Round trip: a workbook is taken exactly when everything that counts in its table and its sheets is
      legible, there is not too much of it, and every cell contributes; it then yields the fragments of what
      the cells contribute as they were written, with the strings of the table as they were written. */
  lemma BookIsRead(written: WrittenBook, limits: Limits)
    requires limits.Valid() && BookPlaced(written)
    ensures var plan := PartsPlan(PartsOf(BookOf(written)), [], limits);
            var strings := TableTexts(written.table);
            && (RejectsNothing(plan)
                <==> && TableLegible(written.table) && SheetsLegible(written.sheets)
                     && exists marks :: SheetsShow(written.sheets, strings, marks))
            && forall marks ::
                 RejectsNothing(plan) && SheetsShow(written.sheets, strings, marks) ==>
                   AllText(marks) && PiecesOf(plan) == Fragments(marks, limits)
  {
    hide ValidFrom, Flatten, RejectsNothing, PiecesOf, AllPieces, Fragments, PartsPlan, PartsOf,
         SheetsShow, SheetsHeard, SheetsTaken, SheetsLegible, SheetsPlaced, TableLegible, Trees,
         MarkedUnits, Indexed, Readable, SharedStrings.Taken, SharedStrings.HeardItems;
    var book, strings := BookOf(written), TableTexts(written.table);
    BookIsReadable(written.sheets);
    if written.table.Some? {
      WrittenTable.TableIsReadable(written.table.value);
      TableTakenIff(written.table.value);
    } else {
      NoTable();
    }
    assert Strings(book) == strings;
    SheetsTakenIff(written.sheets, strings);
    BookTakenIff(book, limits);
    SheetsAreIndexed(book.sheets, strings);
    var units := SheetsHeard(book.sheets, strings);
    forall marks
      ensures SheetsShow(written.sheets, strings, marks)
              <==> units.Some? && MarkedUnits(units.value) == marks
    {
      SheetsShowIff(written.sheets, strings, marks);
    }
    if units.Some? {
      assert SheetsShow(written.sheets, strings, MarkedUnits(units.value));
      PiecesAreFragments(units.value, limits);
    }
  }

  lemma NoTable()
    ensures TableLegible(None) && TableTexts(None) == []
  {
  }
}
