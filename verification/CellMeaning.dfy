/**
 What the cells of a worksheet mean: from the attributes and the content of a cell, whether the sheet is
 refused for it, and what it contributes otherwise.
 */
module CellMeaning {
  import opened Wrappers
  import opened Utf8
  import opened Numerals
  import opened Execution
  import opened Units
  import opened Xml
  import opened Recovery
  import opened CellReference
  import opened Sheet
  import SheetContent

  predicate IsPlainType(cellType: Option<Text>) {
    || cellType.None?
    || cellType.value in {Ascii("str"), Ascii("n"), Ascii("b"), Ascii("e"), Ascii("d")}
  }

  /** The text of a cell without a formula: its value as it stands, its inline text, or the string whose
      index its value denotes; no other type has any. */
  ghost predicate HasText(cellType: Option<Text>, content: Content, shared: seq<Text>, text: Bytes) {
    if IsPlainType(cellType) then text == content.raw
    else if cellType.value == Ascii("inlineStr") then text == content.inline
    else
      && cellType.value == Ascii("s")
      && exists i ::
           && 0 <= i < |shared| && i < 0x1_0000_0000_0000_0000
           && Denotes(content.raw, i) && text == shared[i]
  }

  ghost predicate InGrid(reference: Bytes) {
    exists c: nat, r: nat :: 1 <= c <= 16_384 && 1 <= r <= 1_048_576 && reference == CellName(c, r)
  }

  /** A cell with a formula yields nothing, whatever its type; any other its text under its sheet and
      reference. */
  ghost predicate Gives(
    content: Content, sheetNumber: nat, shared: seq<Text>, reference: Bytes, cellType: Option<Text>,
    marks: seq<Marked>)
  {
    if content.hasFormula then marks == []
    else
      exists text :: HasText(cellType, content, shared, text)
        && marks == if text == [] then [] else [Marked(XlsxCell(sheetNumber, reference, 0), text)]
  }

  /** What a cell contributes to its sheet, which is refused when there is no such thing: its attributes
      must name a cell of the grid, and its type must have a text if it has no formula. */
  ghost predicate Contributes(
    head: Head, content: Content, sheetNumber: nat, shared: seq<Text>, marks: seq<Marked>)
  {
    exists reference: Text, cellType: Option<Text> ::
      && IsValueOf(Some(reference), head.attributes, "r") && InGrid(reference)
      && IsValueOf(cellType, head.attributes, "t")
      && Gives(content, sheetNumber, shared, reference, cellType, marks)
  }

  lemma TypesAre()
    ensures forall cellType: Bytes ::
              (cellType in {Ascii("str"), Ascii("n"), Ascii("b"), Ascii("e"), Ascii("d")}
               <==> IsRawType(cellType))
    ensures Ascii("inlineStr") == TYPE_INLINE && Ascii("s") == TYPE_SHARED
    ensures !IsRawType(TYPE_INLINE) && !IsRawType(TYPE_SHARED) && TYPE_INLINE != TYPE_SHARED
  {
    assert Ascii("str") == [0x73, 0x74, 0x72] && Ascii("n") == [0x6E] && Ascii("b") == [0x62];
    assert Ascii("e") == [0x65] && Ascii("d") == [0x64];
    assert Ascii("inlineStr") == TYPE_INLINE && Ascii("s") == TYPE_SHARED;
    assert |TYPE_INLINE| == 9 && |TYPE_SHARED| == 1 && TYPE_SHARED[0] == 0x73;
  }

  /** The value of a cell, from its type and what it has gathered. */
  lemma ValueIff(cell: Cell, shared: seq<Text>, text: Text)
    requires !cell.hasFormula
    ensures CellValue(cell, shared) == Ok(Some(text))
            <==> HasText(cell.cellType, Content(false, cell.rawValue, cell.inlineText), shared, text)
    ensures CellValue(cell, shared).Ok? ==> CellValue(cell, shared).value.Some?
  {
    hide ValidFrom, Denotes, ParseUnsigned, IsRawType, Ascii;
    TypesAre();
    forall i {
      ParseUnsignedIff(cell.rawValue, USIZE_MAX, i);
    }
  }

  /** A cell is opened exactly under a name of the grid that one attribute gives it, with its type if an
      attribute gives it one. */
  lemma OpenIff(head: Head, reference: Text, cellType: Option<Text>)
    ensures OpenCell(head) == Ok(Cell(reference, cellType, false, NO_TEXT, NO_TEXT, false, false))
            <==> && IsValueOf(Some(reference), head.attributes, "r") && InGrid(reference)
                 && IsValueOf(cellType, head.attributes, "t")
  {
    hide ValidFrom, IsCellReference, IsValueOf, AttributeFrom;
    AttributeMeans(head.attributes, "r", Some(reference));
    AttributeMeans(head.attributes, "t", cellType);
    AcceptedIffInGrid(reference);
  }

  lemma OpenedCell(head: Head)
    requires OpenCell(head).Ok?
    ensures var cell := OpenCell(head).value;
            cell == Cell(cell.reference, cell.cellType, false, NO_TEXT, NO_TEXT, false, false)
            && Valid(cell.reference)
  {
    hide ValidFrom, IsCellReference, AttributeFrom;
  }

  lemma OneMark(text: Text, sheetNumber: nat, reference: Bytes)
    ensures MarkedUnits([Unit(0, text, CellLabel(sheetNumber, reference))])
         == if text == [] then [] else [Marked(XlsxCell(sheetNumber, reference, 0), text)]
  {
    hide ValidFrom;
    var units := [Unit(0, text, CellLabel(sheetNumber, reference))];
    assert units[1..] == [] && MarkedUnits([]) == [];
    assert MarkOf(units[0].name) == XlsxCell(sheetNumber, reference, 0);
  }

  lemma NoMarks()
    ensures MarkedUnits([]) == []
  {
  }

  /** What the parser makes of a cell is what it contributes: it is refused exactly when it contributes
      nothing at all, not even the empty text. */
  lemma ContributesIff(
    head: Head, content: Content, sheetNumber: nat, shared: seq<Text>, marks: seq<Marked>)
    ensures Contributes(head, content, sheetNumber, shared, marks)
            <==> && CellUnits(head, content, sheetNumber, shared).Some?
                 && MarkedUnits(CellUnits(head, content, sheetNumber, shared).value) == marks
  {
    hide ValidFrom, OpenCell, IsValueOf, InGrid, CellValue, MarkedUnits, AttributeFrom, Gives, CellUnits;
    if reference: Text, cellType: Option<Text> :|
       && IsValueOf(Some(reference), head.attributes, "r") && InGrid(reference)
       && IsValueOf(cellType, head.attributes, "t")
       && Gives(content, sheetNumber, shared, reference, cellType, marks)
    {
      OpenIff(head, reference, cellType);
      OpenContributes(head, reference, cellType, content, sheetNumber, shared, marks);
    }
    if OpenCell(head).Ok? {
      OpenedCell(head);
      var cell := OpenCell(head).value;
      OpenIff(head, cell.reference, cell.cellType);
      OpenContributes(head, cell.reference, cell.cellType, content, sheetNumber, shared, marks);
    } else {
      RefusedHead(head, content, sheetNumber, shared);
    }
  }

  lemma RefusedHead(head: Head, content: Content, sheetNumber: nat, shared: seq<Text>)
    requires OpenCell(head).Err?
    ensures CellUnits(head, content, sheetNumber, shared).None?
  {
    hide OpenCell;
  }

  lemma OpenContributes(
    head: Head, reference: Text, cellType: Option<Text>, content: Content, sheetNumber: nat,
    shared: seq<Text>, marks: seq<Marked>)
    requires OpenCell(head) == Ok(Cell(reference, cellType, false, NO_TEXT, NO_TEXT, false, false))
    ensures Gives(content, sheetNumber, shared, reference, cellType, marks)
            <==> && CellUnits(head, content, sheetNumber, shared).Some?
                 && MarkedUnits(CellUnits(head, content, sheetNumber, shared).value) == marks
  {
    hide ValidFrom, OpenCell, HasText, MarkedUnits;
    NoMarks();
    var cell := Absorb(OpenCell(head).value, content);
    assert NO_TEXT + content.raw == content.raw && NO_TEXT + content.inline == content.inline;
    assert cell.hasFormula == content.hasFormula && cell.rawValue == content.raw
           && cell.inlineText == content.inline;
    if !content.hasFormula {
      hide CellValue;
      assert content == Content(false, cell.rawValue, cell.inlineText);
      TextsAreText(cellType, content, shared);
      forall text: Text
        ensures CellValue(cell, shared) == Ok(Some(text)) <==> HasText(cellType, content, shared, text)
      {
        ValueIff(cell, shared, text);
      }
      ValueIff(cell, shared, NO_TEXT);
      if CellValue(cell, shared).Ok? {
        OneMark(CellValue(cell, shared).value.value, sheetNumber, reference);
      }
    }
  }

  lemma TextsAreText(cellType: Option<Text>, content: Content, shared: seq<Text>)
    ensures forall text :: HasText(cellType, content, shared, text) ==> Valid(text)
  {
    hide ValidFrom;
  }

  const C := Name(Spreadsheet, "c")

  /** What the cells of a forest contribute, in document order, from what each gathers. */
  ghost predicate SheetContributes(
    nodes: seq<Node>, sheetNumber: nat, shared: seq<Text>, marks: seq<Marked>)
  {
    if nodes == [] then marks == []
    else
      exists k :: 0 <= k <= |marks| && NodeContributes(nodes[0], sheetNumber, shared, marks[..k])
                  && SheetContributes(nodes[1..], sheetNumber, shared, marks[k..])
  }

  ghost predicate NodeContributes(
    node: Node, sheetNumber: nat, shared: seq<Text>, marks: seq<Marked>)
  {
    match node
    case Leaf(_) => marks == []
    case Element(name, head, children) =>
      if name == C then
        Contributes(head, HeardContent(children, NO_FLAGS), sheetNumber, shared, marks)
      else SheetContributes(children, sheetNumber, shared, marks)
  }

  lemma {:induction false} MarkedConcat(a: seq<Unit>, b: seq<Unit>)
    ensures MarkedUnits(a + b) == MarkedUnits(a) + MarkedUnits(b)
    decreases |a|
  {
    hide MarkOf;
    if a == [] {
      assert a + b == b;
    } else {
      assert (a + b)[0] == a[0] && (a + b)[1..] == a[1..] + b;
      MarkedConcat(a[1..], b);
    }
  }

  lemma AppendMarks(
    own: Option<seq<Unit>>, rest: Option<seq<Unit>>, marks: seq<Marked>)
    ensures Append(own, rest).Some? && MarkedUnits(Append(own, rest).value) == marks
            <==> && own.Some? && rest.Some?
                 && exists k :: 0 <= k <= |marks| && marks[..k] == MarkedUnits(own.value)
                                && marks[k..] == MarkedUnits(rest.value)
  {
    hide MarkedUnits;
    if own.Some? && rest.Some? {
      var a, b := MarkedUnits(own.value), MarkedUnits(rest.value);
      MarkedConcat(own.value, rest.value);
      if a + b == marks {
        assert marks[..|a|] == a && marks[|a|..] == b;
      }
      if k :| 0 <= k <= |marks| && marks[..k] == a && marks[k..] == b {
        assert marks == marks[..k] + marks[k..];
      }
    }
  }

  lemma {:induction false} SheetContributesIff(
    nodes: seq<Node>, sheetNumber: nat, shared: seq<Text>, marks: seq<Marked>)
    ensures SheetContributes(nodes, sheetNumber, shared, marks)
            <==> && HeardUnits(nodes, sheetNumber, shared).Some?
                 && MarkedUnits(HeardUnits(nodes, sheetNumber, shared).value) == marks
    decreases nodes
  {
    hide MarkedUnits, NodeContributes, NodeHeardUnits;
    if nodes == [] {
      NoMarks();
    } else {
      var own := NodeHeardUnits(nodes[0], sheetNumber, shared);
      var rest := HeardUnits(nodes[1..], sheetNumber, shared);
      AppendMarks(own, rest, marks);
      forall k | 0 <= k <= |marks|
        ensures NodeContributes(nodes[0], sheetNumber, shared, marks[..k])
                <==> own.Some? && MarkedUnits(own.value) == marks[..k]
        ensures SheetContributes(nodes[1..], sheetNumber, shared, marks[k..])
                <==> rest.Some? && MarkedUnits(rest.value) == marks[k..]
      {
        NodeContributesIff(nodes[0], sheetNumber, shared, marks[..k]);
        SheetContributesIff(nodes[1..], sheetNumber, shared, marks[k..]);
      }
    }
  }

  lemma {:induction false} NodeContributesIff(
    node: Node, sheetNumber: nat, shared: seq<Text>, marks: seq<Marked>)
    ensures NodeContributes(node, sheetNumber, shared, marks)
            <==> && NodeHeardUnits(node, sheetNumber, shared).Some?
                 && MarkedUnits(NodeHeardUnits(node, sheetNumber, shared).value) == marks
    decreases node
  {
    hide MarkedUnits, Contributes, CellUnits, HeardContent;
    match node {
      case Leaf(_) => NoMarks();
      case Element(name, head, children) =>
        if name == C {
          ContributesIff(head, HeardContent(children, NO_FLAGS), sheetNumber, shared, marks);
        } else {
          SheetContributesIff(children, sheetNumber, shared, marks);
        }
    }
  }

  /** On every tree that the guard lets through, the parser takes the events of a worksheet exactly when no
      cell is inside a cell, there are not too many, what is heard decodes, and every cell contributes
      something or, with a formula, nothing; it then yields the fragments of what the cells contribute. */
  lemma SheetMeansIff(tree: seq<Node>, limits: Limits, sheetNumber: nat, shared: seq<Text>)
    requires limits.Valid() && Readable(tree)
    ensures var plan := SheetPlan(Flatten(tree), limits, sheetNumber, shared);
            && (RejectsNothing(plan)
                <==> && Apart(tree, C, false) && Count(tree, C) <= 100_000 && SheetDecodes(tree)
                     && exists marks :: SheetContributes(tree, sheetNumber, shared, marks))
            && forall marks ::
                 RejectsNothing(plan) && SheetContributes(tree, sheetNumber, shared, marks) ==>
                   AllText(marks) && PiecesOf(plan) == Fragments(marks, limits)
  {
    hide ValidFrom, Flatten, RejectsNothing, PiecesOf, AllPieces, Fragments, SheetPlan, HeardUnits,
         MarkedUnits, SheetContributes, Indexed, Apart, Count, SheetDecodes, Acceptable;
    TakesTreeIff(tree, limits, sheetNumber, shared);
    SheetContent.UnitsAreIndexed(tree, sheetNumber, shared);
    var units := HeardUnits(tree, sheetNumber, shared);
    forall marks
      ensures SheetContributes(tree, sheetNumber, shared, marks)
              <==> units.Some? && MarkedUnits(units.value) == marks
    {
      SheetContributesIff(tree, sheetNumber, shared, marks);
    }
    if units.Some? {
      assert SheetContributes(tree, sheetNumber, shared, MarkedUnits(units.value));
      PiecesAreFragments(units.value, limits);
    }
  }
}
