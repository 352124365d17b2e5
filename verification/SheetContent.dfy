/** What `parse_xlsx_sheet` hears of a worksheet, against what is in its tree. */
module SheetContent {
  import opened Wrappers
  import opened Utf8
  import opened Numerals
  import opened Execution
  import opened Chunking
  import opened Units
  import opened Xml
  import opened Gathering
  import opened Recovery
  import opened CellReference
  import opened Sheet

  /** The text of a forest that stands under a text element and not under a value element. */
  function UnderInline(nodes: seq<Node>, scope: Flags): Text {
    if nodes == [] then NO_TEXT
    else Push(NodeUnderInline(nodes[0], scope), UnderInline(nodes[1..], scope))
  }

  function NodeUnderInline(node: Node, scope: Flags): Text {
    match node
    case Leaf(event) => InlineLeaf(event, scope)
    case Element(name, _, children) => UnderInline(children, Inside(scope, name))
  }

  /** What the content of a cell is in the tree. */
  function ContentOf(nodes: seq<Node>, scope: Flags): Content {
    Content(Count(nodes, FORMULA) > 0, Under(nodes, RAW_RULE, scope.value),
            UnderInline(nodes, scope))
  }

  predicate IsInline(flags: Flags) {
    flags.text && !flags.value
  }

  /** All text is inline text to the parser exactly when it is in the tree. */
  predicate InlineKept(nodes: seq<Node>, scope: Flags, flags: Flags) {
    nodes == []
    || (NodeInlineKept(nodes[0], scope, flags)
        && InlineKept(nodes[1..], scope, NodeFlagsAfter(nodes[0], flags)))
  }

  predicate NodeInlineKept(node: Node, scope: Flags, flags: Flags) {
    match node
    case Leaf(event) => Plain(event) == NO_TEXT || (IsInline(flags) <==> IsInline(scope))
    case Element(name, _, children) =>
      InlineKept(children, Inside(scope, name), Inside(flags, name))
  }

  predicate Within(flags: Flags, scope: Flags) {
    (flags.value ==> scope.value) && (flags.text ==> scope.text)
  }

  /** Where no value text is lost, inline text can only be lost as well. */
  lemma {:induction false} InlineIff(nodes: seq<Node>, scope: Flags, flags: Flags)
    requires Within(flags, scope) && Kept(nodes, VALUE, scope.value, flags.value)
    ensures |HeardInline(nodes, flags)| <= |UnderInline(nodes, scope)|
    ensures InlineKept(nodes, scope, flags)
            <==> |HeardInline(nodes, flags)| == |UnderInline(nodes, scope)|
    ensures InlineKept(nodes, scope, flags)
            <==> HeardInline(nodes, flags) == UnderInline(nodes, scope)
    decreases nodes
  {
    hide ValidFrom;
    if nodes != [] {
      NodeFlagNeverRises(nodes[0], VALUE);
      NodeFlagNeverRises(nodes[0], INLINE_TEXT);
      NodeInlineIff(nodes[0], scope, flags);
      InlineIff(nodes[1..], scope, NodeFlagsAfter(nodes[0], flags));
    }
  }

  lemma {:induction false} NodeInlineIff(node: Node, scope: Flags, flags: Flags)
    requires Within(flags, scope) && NodeKept(node, VALUE, scope.value, flags.value)
    ensures |NodeHeardInline(node, flags)| <= |NodeUnderInline(node, scope)|
    ensures NodeInlineKept(node, scope, flags)
            <==> |NodeHeardInline(node, flags)| == |NodeUnderInline(node, scope)|
    ensures NodeInlineKept(node, scope, flags)
            <==> NodeHeardInline(node, flags) == NodeUnderInline(node, scope)
    decreases node
  {
    hide ValidFrom;
    match node {
      case Leaf(event) =>
      case Element(name, _, children) =>
        InlineIff(children, Inside(scope, name), Inside(flags, name));
    }
  }

  /** What a cell gathers is its content in the tree if and only if no value text is lost and inline
      text is what it is in the tree. */
  lemma ContentIsTreeIff(nodes: seq<Node>, scope: Flags, flags: Flags)
    requires Within(flags, scope)
    ensures HeardContent(nodes, flags) == ContentOf(nodes, scope)
            <==> Kept(nodes, VALUE, scope.value, flags.value) && InlineKept(nodes, scope, flags)
  {
    hide Heard, Under, HeardInline, UnderInline, Kept, InlineKept, Count, ValidFrom;
    HeardIsUnderIff(nodes, RAW_RULE, scope.value, flags.value);
    if Kept(nodes, VALUE, scope.value, flags.value) {
      InlineIff(nodes, scope, flags);
    }
  }

  /** The values of the cells of a forest, in document order; None when a cell is refused. */
  function SheetUnits(nodes: seq<Node>, sheetNumber: nat, shared: seq<Text>): Option<seq<Unit>> {
    if nodes == [] then Some([])
    else Append(NodeUnits(nodes[0], sheetNumber, shared),
                SheetUnits(nodes[1..], sheetNumber, shared))
  }

  function NodeUnits(node: Node, sheetNumber: nat, shared: seq<Text>): Option<seq<Unit>> {
    match node
    case Element(name, head, children) =>
      if name == CELL then CellUnits(head, ContentOf(children, NO_FLAGS), sheetNumber, shared)
      else SheetUnits(children, sheetNumber, shared)
    case Leaf(_) => Some([])
  }

  /** Whether a cell shows its value text as it stands, its inline text, or a string by index. */
  datatype Shown = Nothing | RawText | InlineText | SharedString

  function Shows(head: Head, children: seq<Node>): Shown {
    if OpenCell(head).Err? || Count(children, FORMULA) > 0 then Nothing
    else
      var cellType := OpenCell(head).value.cellType;
      if cellType.None? || IsRawType(cellType.value) then RawText
      else if cellType.value == TYPE_INLINE then InlineText
      else if cellType.value == TYPE_SHARED then SharedString
      else Nothing
  }

  predicate ValueKept(children: seq<Node>) {
    Kept(children, VALUE, false, false)
  }

  /** What the cell shows is what it shows in the tree. */
  predicate CellKept(head: Head, children: seq<Node>) {
    match Shows(head, children)
    case Nothing => true
    case RawText => ValueKept(children)
    case InlineText => InlineKept(children, NO_FLAGS, NO_FLAGS)
    case SharedString => true
  }

  /** Cells with inline text or a shared string hear the text of their values in full. */
  predicate IndexesKept(nodes: seq<Node>) {
    nodes == [] || (NodeIndexesKept(nodes[0]) && IndexesKept(nodes[1..]))
  }

  predicate NodeIndexesKept(node: Node) {
    node.Element? ==>
      if node.name == CELL then
        Shows(node.head, node.children) in {InlineText, SharedString} ==> ValueKept(node.children)
      else IndexesKept(node.children)
  }

  /** No cell loses any text that it shows. */
  predicate SheetKept(nodes: seq<Node>) {
    nodes == [] || (NodeSheetKept(nodes[0]) && SheetKept(nodes[1..]))
  }

  predicate NodeSheetKept(node: Node) {
    node.Element? ==>
      if node.name == CELL then CellKept(node.head, node.children) else SheetKept(node.children)
  }

  /** The units that are heard against those of the tree: refused together, never more text, and the
      same exactly when nothing is lost. */
  ghost predicate CompareUnits(heard: Option<seq<Unit>>, tree: Option<seq<Unit>>, kept: bool) {
    && (heard.Some? <==> tree.Some?)
    && (heard.Some? ==>
          && |heard.value| == |tree.value|
          && AllIndexed(heard.value) && AllIndexed(tree.value)
          && TotalText(heard.value) <= TotalText(tree.value)
          && (kept <==> TotalText(heard.value) == TotalText(tree.value))
          && (kept <==> heard.value == tree.value))
  }

  lemma {:induction false} TotalTextConcat(a: seq<Unit>, b: seq<Unit>)
    ensures TotalText(a + b) == TotalText(a) + TotalText(b)
    decreases |a|
  {
    if a == [] {
      assert a + b == b;
    } else {
      assert (a + b)[1..] == a[1..] + b;
      TotalTextConcat(a[1..], b);
    }
  }

  lemma CompareAppend(
    heard: Option<seq<Unit>>, tree: Option<seq<Unit>>, kept: bool, more: Option<seq<Unit>>,
    moreTree: Option<seq<Unit>>, moreKept: bool)
    requires CompareUnits(heard, tree, kept) && CompareUnits(more, moreTree, moreKept)
    ensures CompareUnits(Append(heard, more), Append(tree, moreTree), kept && moreKept)
  {
    hide TotalText, Indexed;
    if heard.Some? && more.Some? {
      TotalTextConcat(heard.value, more.value);
      TotalTextConcat(tree.value, moreTree.value);
    }
  }

  lemma CompareNoUnits(kept: bool)
    ensures CompareUnits(Some([]), Some([]), true)
    ensures CompareUnits(None, None, kept)
  {
  }

  lemma CompareOneUnit(heard: Text, text: Text, name: Label, kept: bool)
    requires |heard| <= |text| && (kept <==> |heard| == |text|) && (kept <==> heard == text)
    requires Indexed(name)
    ensures CompareUnits(Some([Unit(0, heard, name)]), Some([Unit(0, text, name)]), kept)
  {
    hide ValidFrom, Indexed;
    var a, b := [Unit(0, heard, name)], [Unit(0, text, name)];
    assert a[1..] == [] && b[1..] == [];
    assert a == b ==> a[0] == b[0];
  }

  lemma CellLabelsAreIndexed(sheetNumber: nat, reference: Bytes)
    ensures Indexed(CellLabel(sheetNumber, reference))
  {
  }

  lemma {:induction false} HeardUnitsIff(nodes: seq<Node>, sheetNumber: nat, shared: seq<Text>)
    requires IndexesKept(nodes)
    ensures CompareUnits(HeardUnits(nodes, sheetNumber, shared),
                         SheetUnits(nodes, sheetNumber, shared), SheetKept(nodes))
    decreases nodes
  {
    hide CompareUnits, Append;
    if nodes == [] {
      CompareNoUnits(true);
    } else {
      var node, tail := nodes[0], nodes[1..];
      NodeHeardUnitsIff(node, sheetNumber, shared);
      HeardUnitsIff(tail, sheetNumber, shared);
      CompareAppend(NodeHeardUnits(node, sheetNumber, shared),
                    NodeUnits(node, sheetNumber, shared), NodeSheetKept(node),
                    HeardUnits(tail, sheetNumber, shared), SheetUnits(tail, sheetNumber, shared),
                    SheetKept(tail));
    }
  }

  lemma {:induction false} NodeHeardUnitsIff(node: Node, sheetNumber: nat, shared: seq<Text>)
    requires NodeIndexesKept(node)
    ensures CompareUnits(NodeHeardUnits(node, sheetNumber, shared),
                         NodeUnits(node, sheetNumber, shared), NodeSheetKept(node))
    decreases node
  {
    hide CompareUnits, CellUnits, CellKept, Shows, HeardContent, ContentOf;
    match node {
      case Leaf(_) =>
        CompareNoUnits(true);
      case Element(name, head, children) =>
        if name == CELL {
          CellUnitsIff(head, children, sheetNumber, shared);
        } else {
          HeardUnitsIff(children, sheetNumber, shared);
        }
    }
  }

  lemma CellUnitsIff(head: Head, children: seq<Node>, sheetNumber: nat, shared: seq<Text>)
    requires Shows(head, children) in {InlineText, SharedString} ==> ValueKept(children)
    ensures CompareUnits(CellUnits(head, HeardContent(children, NO_FLAGS), sheetNumber, shared),
                         CellUnits(head, ContentOf(children, NO_FLAGS), sheetNumber, shared),
                         CellKept(head, children))
  {
    hide ValidFrom, CompareUnits, Heard, Under, HeardInline, UnderInline, Kept, InlineKept, Count,
         AttributeFrom, ParseUnsigned, IsCellReference;
    var heard, tree := HeardContent(children, NO_FLAGS), ContentOf(children, NO_FLAGS);
    HeardIsUnderIff(children, RAW_RULE, false, false);
    if ValueKept(children) {
      InlineIff(children, NO_FLAGS, NO_FLAGS);
    }
    if OpenCell(head).Err? {
      CompareNoUnits(CellKept(head, children));
    } else {
      var cell := OpenCell(head).value;
      NothingBefore(heard.raw, heard.inline);
      NothingBefore(tree.raw, tree.inline);
      var value := CellValue(Absorb(cell, heard), shared);
      if value.Err? {
        CompareNoUnits(CellKept(head, children));
      } else if value.value.None? {
        CompareNoUnits(true);
      } else {
        CellLabelsAreIndexed(sheetNumber, cell.reference);
        CompareOneUnit(value.value.value, CellValue(Absorb(cell, tree), shared).value.value,
                       CellLabel(sheetNumber, cell.reference), CellKept(head, children));
      }
    }
  }

  lemma NothingBefore(raw: Text, inline: Text)
    ensures Push(NO_TEXT, raw) == raw && Push(NO_TEXT, inline) == inline
  {
    assert NO_TEXT + raw == raw && NO_TEXT + inline == inline;
  }

  lemma CellUnitsAreIndexed(head: Head, content: Content, sheetNumber: nat, shared: seq<Text>)
    ensures var units := CellUnits(head, content, sheetNumber, shared);
            units.Some? ==> AllIndexed(units.value)
  {
    hide ValidFrom, Indexed, OpenCell, CellValue, AttributeFrom;
    if OpenCell(head).Ok? {
      CellLabelsAreIndexed(sheetNumber, Absorb(OpenCell(head).value, content).reference);
    }
  }

  lemma {:induction false} UnitsAreIndexed(nodes: seq<Node>, sheetNumber: nat, shared: seq<Text>)
    ensures var heard := HeardUnits(nodes, sheetNumber, shared);
            heard.Some? ==> AllIndexed(heard.value)
    ensures var units := SheetUnits(nodes, sheetNumber, shared);
            units.Some? ==> AllIndexed(units.value)
    decreases nodes
  {
    hide Indexed, CellUnits, HeardContent, ContentOf;
    if nodes != [] {
      UnitsAreIndexed(nodes[1..], sheetNumber, shared);
      var node := nodes[0];
      if node.Element? {
        if node.name == CELL {
          CellUnitsAreIndexed(node.head, HeardContent(node.children, NO_FLAGS), sheetNumber, shared);
          CellUnitsAreIndexed(node.head, ContentOf(node.children, NO_FLAGS), sheetNumber, shared);
        } else {
          UnitsAreIndexed(node.children, sheetNumber, shared);
        }
      }
    }
  }

  /** Streaming against extracting from the tree: a worksheet that is taken yields exactly the chunks of
      the values of the tree's cells if and only if the cells that show any text are the same, with the
      same references and texts, as they are heard and in the tree. */
  lemma StreamEqualsTreeIff(tree: seq<Node>, limits: Limits, sheetNumber: nat, shared: seq<Text>)
    requires limits.Valid() && Readable(tree) && Taken(tree, sheetNumber, shared)
    requires SheetUnits(tree, sheetNumber, shared).Some?
    ensures var plan := SheetPlan(Flatten(tree), limits, sheetNumber, shared);
            var heard := HeardUnits(tree, sheetNumber, shared).value;
            var units := SheetUnits(tree, sheetNumber, shared).value;
            PiecesOf(plan) == AllPieces(units, limits)
            <==> MarkedUnits(heard) == MarkedUnits(units)
  {
    hide ValidFrom, PiecesOf, AllPieces, SheetPlan, Flatten, RejectsNothing, HeardUnits, SheetUnits,
         Readable, Indexed, SheetDecodes, Apart, Count, MarkedUnits;
    TakesTreeIff(tree, limits, sheetNumber, shared);
    UnitsAreIndexed(tree, sheetNumber, shared);
    SamePiecesIff(HeardUnits(tree, sheetNumber, shared).value,
                  SheetUnits(tree, sheetNumber, shared).value, limits);
  }

  /** When one cell shows in the stream what it shows in the tree: a raw value, when none of its text is
      lost; inline text, when what is heard of it is what stands there; a shared string, when both
      numerals denote equal strings. */
  lemma CellShowsIff(head: Head, children: seq<Node>, sheetNumber: nat, shared: seq<Text>)
    ensures var heard, tree := HeardContent(children, NO_FLAGS), ContentOf(children, NO_FLAGS);
            CellUnits(head, heard, sheetNumber, shared) == CellUnits(head, tree, sheetNumber, shared)
            <==>
            match Shows(head, children)
            case Nothing => true
            case RawText => ValueKept(children)
            case InlineText => heard.inline == tree.inline
            case SharedString => StringAt(heard.raw, shared) == StringAt(tree.raw, shared)
  {
    hide ValidFrom, Heard, Under, HeardInline, UnderInline, Kept, Count, AttributeFrom, ParseUnsigned,
         IsCellReference;
    var heard, tree := HeardContent(children, NO_FLAGS), ContentOf(children, NO_FLAGS);
    HeardIsUnderIff(children, RAW_RULE, false, false);
    NothingBefore(heard.raw, heard.inline);
    NothingBefore(tree.raw, tree.inline);
    if OpenCell(head).Ok? {
      var cell := OpenCell(head).value;
      var name := CellLabel(sheetNumber, cell.reference);
      var one, other := CellValue(Absorb(cell, heard), shared), CellValue(Absorb(cell, tree), shared);
      if one.Ok? && other.Ok? && one.value.Some? && other.value.Some? {
        SameUnit(one.value.value, other.value.value, name);
      }
    }
  }

  lemma SameUnit(text: Text, other: Text, name: Label)
    ensures Some([Unit(0, text, name)]) == Some([Unit(0, other, name)]) <==> text == other
  {
    assert [Unit(0, text, name)] == [Unit(0, other, name)]
      ==> [Unit(0, text, name)][0] == [Unit(0, other, name)][0];
  }

  /** The shared string of a numeral. */
  function StringAt(numeral: Text, shared: seq<Text>): Option<Text> {
    var index := ParseUnsigned(numeral, USIZE_MAX);
    if index.None? || index.value >= |shared| then None else Some(shared[index.value])
  }

  /** In particular, where cells with inline text or a shared string hear the text of their values in
      full, the stream yields the chunks of the tree if and only if no cell loses any text that it
      shows. */
  lemma StreamIsKeptIff(tree: seq<Node>, limits: Limits, sheetNumber: nat, shared: seq<Text>)
    requires limits.Valid() && Readable(tree) && Taken(tree, sheetNumber, shared)
    requires IndexesKept(tree)
    ensures var plan := SheetPlan(Flatten(tree), limits, sheetNumber, shared);
            var units := SheetUnits(tree, sheetNumber, shared);
            && units.Some?
            && (PiecesOf(plan) == AllPieces(units.value, limits) <==> SheetKept(tree))
  {
    hide ValidFrom, PiecesOf, AllPieces, SheetPlan, Flatten, RejectsNothing, HeardUnits, SheetUnits,
         SheetKept, IndexesKept, Readable, Indexed, SheetDecodes, Apart, Count;
    var heard, units := HeardUnits(tree, sheetNumber, shared), SheetUnits(tree, sheetNumber, shared);
    TakesTreeIff(tree, limits, sheetNumber, shared);
    HeardUnitsIff(tree, sheetNumber, shared);
    if AllPieces(heard.value, limits) == AllPieces(units.value, limits) {
      SamePiecesSameLength(heard.value, units.value, limits);
    }
  }

  /** Every cell gathers its content in the tree. */
  predicate ContentsKept(nodes: seq<Node>) {
    nodes == [] || (NodeContentsKept(nodes[0]) && ContentsKept(nodes[1..]))
  }

  predicate NodeContentsKept(node: Node) {
    node.Element? ==>
      if node.name == CELL then
        ValueKept(node.children) && InlineKept(node.children, NO_FLAGS, NO_FLAGS)
      else ContentsKept(node.children)
  }

  /** Then the units are those of the tree, whatever the cells show. */
  lemma {:induction false} KeptUnits(nodes: seq<Node>, sheetNumber: nat, shared: seq<Text>)
    requires ContentsKept(nodes)
    ensures HeardUnits(nodes, sheetNumber, shared) == SheetUnits(nodes, sheetNumber, shared)
    decreases nodes
  {
    hide CellUnits, HeardContent, ContentOf;
    if nodes != [] {
      var node := nodes[0];
      KeptUnits(nodes[1..], sheetNumber, shared);
      if node.Element? {
        if node.name == CELL {
          ContentIsTreeIff(node.children, NO_FLAGS, NO_FLAGS);
        } else {
          KeptUnits(node.children, sheetNumber, shared);
        }
      }
    }
  }

  /** With no value element inside another one, and no text element either, a cell gathers its content
      in the tree. */
  lemma {:induction false} PlainIsKept(nodes: seq<Node>, flags: Flags)
    requires Apart(nodes, VALUE, flags.value) && Apart(nodes, INLINE_TEXT, flags.text)
    ensures Kept(nodes, VALUE, flags.value, flags.value) && InlineKept(nodes, flags, flags)
    decreases nodes
  {
    ApartIsKept(nodes, VALUE, flags.value);
    if nodes != [] {
      NodeApartIsKept(nodes[0], VALUE, flags.value);
      NodeApartIsKept(nodes[0], INLINE_TEXT, flags.text);
      assert NodeFlagsAfter(nodes[0], flags) == flags;
      PlainIsKept(nodes[1..], flags);
      if nodes[0].Element? {
        PlainIsKept(nodes[0].children, Inside(flags, nodes[0].name));
      }
    }
  }

  const A1: Text := A1Text()

  function A1Text(): Text {
    var s: Bytes := [0x41, 0x31];
    assert ValidFrom(s, 2) && ValidFrom(s, 1);
    s
  }

  const A1_HEAD := Head(1, [Attribute("r", 1, 2, Some(A1))])

  const WORKSHEET := Name(Spreadsheet, "worksheet")

  /** A worksheet with one cell, in which a letter follows a value element inside a value element. The
      head of the root element, which declares the namespace, is left open. */
  function Lossy(root: Head, letter: Text): seq<Node> {
    [Element(WORKSHEET, root, [LossyCell(letter)])]
  }

  function LossyCell(letter: Text): Node {
    Element(CELL, A1_HEAD, [Nested(VALUE, letter)])
  }

  lemma A1IsReadable()
    ensures HeadFault(A1_HEAD).None?
    ensures AttributeFrom(A1_HEAD.attributes, "r", None) == Ok(Some(A1))
    ensures AttributeFrom(A1_HEAD.attributes, "t", None) == Ok(None)
  {
    hide ValidFrom;
    var attributes := A1_HEAD.attributes;
    assert "r"[0] != "t"[0];
    assert attributes[1..] == [];
    assert AttributeFault(attributes[1..], 1).None?;
    assert AttributeFrom(attributes[1..], "r", Some(A1)) == Ok(Some(A1));
    assert AttributeFrom(attributes[1..], "t", None) == Ok(None);
  }

  lemma A1IsOpened()
    ensures OpenCell(A1_HEAD) == Ok(Cell(A1, None, false, NO_TEXT, NO_TEXT, false, false))
  {
    hide ValidFrom, IsCellReference, AttributeFrom;
    A1IsReadable();
    NameIsAccepted(1, 1);
    assert Letters(1) == Letters(0) + [0x41] == [0x41] && Decimal(1) == [0x31];
    assert CellName(1, 1) == A1;
  }

  lemma A1Units(content: Content, text: Text, sheetNumber: nat, shared: seq<Text>)
    requires !content.hasFormula && content.raw == text
    ensures CellUnits(A1_HEAD, content, sheetNumber, shared)
         == Some([Unit(0, text, CellLabel(sheetNumber, A1))])
  {
    hide ValidFrom, OpenCell;
    A1IsOpened();
    NothingBefore(content.raw, content.inline);
  }

  lemma LossyCellFacts(letter: Text, sheetNumber: nat, shared: seq<Text>)
    requires 0 < |letter| <= MAX_XML_TEXT_NODE_BYTES
    ensures var node, name := LossyCell(letter), CellLabel(sheetNumber, A1);
            && Acceptable([node], 1) && |Flatten([node])| == 7
            && NodeApart(node, CELL, false) && NodeCount(node, CELL) == 1 && NodeSheetDecodes(node)
            && NodeHeardUnits(node, sheetNumber, shared) == Some([Unit(0, NO_TEXT, name)])
            && NodeUnits(node, sheetNumber, shared) == Some([Unit(0, letter, name)])
  {
    hide ValidFrom, Nested, CellUnits, HeadFault;
    var inner, node := Nested(VALUE, letter), LossyCell(letter);
    A1IsReadable();
    NestedIsLost(RAW_RULE, letter);
    NestedIsAcceptable(VALUE, letter, 2);
    NestedDecodes(letter);
    HeardInTwo(inner, inner, RAW_RULE, false);
    NestedHasNo(VALUE, letter, CELL);
    NestedHasNo(VALUE, letter, FORMULA);
    OneNode(inner, CELL, true);
    OneNode(inner, FORMULA, true);
    assert [node][1..] == [] && [inner][1..] == [];
    assert |FlattenNode(node)| == 7;
    A1Units(HeardContent([inner], NO_FLAGS), NO_TEXT, sheetNumber, shared);
    A1Units(ContentOf([inner], NO_FLAGS), letter, sheetNumber, shared);
  }

  lemma LossyFacts(root: Head, letter: Text, sheetNumber: nat, shared: seq<Text>)
    requires 0 < |letter| <= MAX_XML_TEXT_NODE_BYTES && HeadFault(root).None?
    ensures var tree, name := Lossy(root, letter), CellLabel(sheetNumber, A1);
            && Readable(tree) && Taken(tree, sheetNumber, shared)
            && HeardUnits(tree, sheetNumber, shared) == Some([Unit(0, NO_TEXT, name)])
            && SheetUnits(tree, sheetNumber, shared) == Some([Unit(0, letter, name)])
  {
    hide ValidFrom, LossyCell, NodeHeardUnits, NodeUnits, NodeSheetDecodes, HeadFault;
    var node, tree := LossyCell(letter), Lossy(root, letter);
    LossyCellFacts(letter, sheetNumber, shared);
    RootIsReadable(WORKSHEET, root, node);
    OneUnitAppended(Unit(0, NO_TEXT, CellLabel(sheetNumber, A1)));
    OneUnitAppended(Unit(0, letter, CellLabel(sheetNumber, A1)));
    OneChild(node, sheetNumber, shared);
    OneChild(tree[0], sheetNumber, shared);
    RootAddsNothing(root, node, sheetNumber, shared);
  }

  lemma OneChild(node: Node, sheetNumber: nat, shared: seq<Text>)
    ensures HeardUnits([node], sheetNumber, shared)
         == Append(NodeHeardUnits(node, sheetNumber, shared), Some([]))
    ensures SheetUnits([node], sheetNumber, shared)
         == Append(NodeUnits(node, sheetNumber, shared), Some([]))
    ensures SheetDecodes([node]) <==> NodeSheetDecodes(node)
    ensures Apart([node], CELL, false) <==> NodeApart(node, CELL, false)
    ensures Count([node], CELL) == NodeCount(node, CELL)
  {
    hide CellUnits, NodeHeardUnits, NodeUnits, NodeSheetDecodes, NodeApart, NodeCount;
    assert [node][1..] == [];
  }

  lemma RootAddsNothing(root: Head, child: Node, sheetNumber: nat, shared: seq<Text>)
    ensures var node := Element(WORKSHEET, root, [child]);
            && NodeHeardUnits(node, sheetNumber, shared) == HeardUnits([child], sheetNumber, shared)
            && NodeUnits(node, sheetNumber, shared) == SheetUnits([child], sheetNumber, shared)
            && (NodeSheetDecodes(node) <==> SheetDecodes([child]))
            && (NodeApart(node, CELL, false) <==> Apart([child], CELL, false))
            && NodeCount(node, CELL) == Count([child], CELL)
  {
    hide CellUnits;
    assert |"worksheet"| != |"c"|;
  }

  lemma OneUnitAppended(unit: Unit)
    ensures Append(Some([unit]), Some([])) == Some([unit])
  {
    assert [unit] + [] == [unit];
  }

  lemma NestedDecodes(letter: Text)
    ensures CellDecodes([Nested(VALUE, letter)], NO_FLAGS)
  {
    hide ValidFrom;
    var inner, leaf := Element(VALUE, PLAIN_HEAD, []), LetterLeaf(letter);
    assert [inner, leaf][1..] == [leaf] && [leaf][1..] == [];
    assert NodeCellDecodes(leaf, NO_FLAGS) && CellDecodes([leaf], NO_FLAGS);
    assert NodeCellDecodes(inner, Flags(true, false));
    assert CellDecodes([inner, leaf], Flags(true, false));
    assert NodeCellDecodes(Nested(VALUE, letter), NO_FLAGS);
    assert [Nested(VALUE, letter)][1..] == [];
  }

  /** The parser takes that worksheet and emits nothing, although the letter is in the tree. */
  lemma NestedValueIsLost(
    root: Head, letter: Text, limits: Limits, sheetNumber: nat, shared: seq<Text>)
    requires limits.Valid() && 0 < |letter| <= MAX_XML_TEXT_NODE_BYTES && HeadFault(root).None?
    ensures var tree := Lossy(root, letter);
            var plan := SheetPlan(Flatten(tree), limits, sheetNumber, shared);
            && Readable(tree) && RejectsNothing(plan) && PiecesOf(plan) == []
            && SheetUnits(tree, sheetNumber, shared)
               == Some([Unit(0, letter, CellLabel(sheetNumber, A1))])
  {
    hide ValidFrom, PiecesOf, SheetPlan, RejectsNothing, Taken, HeardUnits, SheetUnits, Lossy,
         HeadFault;
    LossyFacts(root, letter, sheetNumber, shared);
    TakesTreeIff(Lossy(root, letter), limits, sheetNumber, shared);
    EmptyCell(limits, CellLabel(sheetNumber, A1));
  }

  lemma EmptyCell(limits: Limits, name: Label)
    requires limits.Valid()
    ensures AllPieces([Unit(0, NO_TEXT, name)], limits) == []
  {
    assert [Unit(0, NO_TEXT, name)][1..] == [];
  }
}
