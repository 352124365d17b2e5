/** `parse_xlsx_sheet` and `cell_value`: the cells of a worksheet, streamed and as a tree. */
module Sheet {
  import opened Wrappers
  import opened Utf8
  import opened Numerals
  import opened Execution
  import opened Chunking
  import opened Session
  import opened Units
  import opened Xml
  import opened Gathering
  import opened CellReference

  const CELL := Name(Spreadsheet, "c")
  const FORMULA := Name(Spreadsheet, "f")
  const VALUE := Name(Spreadsheet, "v")
  const INLINE_TEXT := Name(Spreadsheet, "t")

  const USIZE_MAX: nat := 0xFFFF_FFFF_FFFF_FFFF
  const TYPE_SHARED: Bytes := [0x73]
  const TYPE_INLINE: Bytes := [0x69, 0x6E, 0x6C, 0x69, 0x6E, 0x65, 0x53, 0x74, 0x72]

  /** The types `str`, `n`, `b`, `e` and `d`. */
  predicate IsRawType(cellType: Bytes) {
    || cellType == [0x73, 0x74, 0x72]
    || cellType == [0x6E] || cellType == [0x62] || cellType == [0x65] || cellType == [0x64]
  }

  function CellLabel(sheetNumber: nat, reference: Bytes): Label {
    (r: Range, index: nat) => XlsxCell(sheetNumber, reference, index)
  }

  /** The attribute loop of `attribute_value`. */
  function AttributeFrom(attributes: seq<Attribute>, key: string, found: Option<Text>)
    : Result<Option<Text>, ExtractionError>
  {
    if attributes == [] then Ok(found)
    else if attributes[0].BadAttribute? then Err(InvalidOoxmlXml)
    else if attributes[0].key != key then AttributeFrom(attributes[1..], key, found)
    else if found.Some? || attributes[0].value.None? then Err(InvalidOoxmlXml)
    else if |attributes[0].value.value| > MAX_XML_TEXT_NODE_BYTES then
      Err(OoxmlStructureLimitExceeded)
    else AttributeFrom(attributes[1..], key, attributes[0].value)
  }

  /** The attributes with a key. */
  function Named(attributes: seq<Attribute>, key: string): seq<Attribute> {
    if attributes == [] then []
    else
      (if attributes[0].Attribute? && attributes[0].key == key then [attributes[0]] else [])
      + Named(attributes[1..], key)
  }

  predicate AttributesReadable(attributes: seq<Attribute>) {
    forall k :: 0 <= k < |attributes| ==> attributes[k].Attribute?
  }

  /** The one attribute with the key, if there is one, has this value. */
  predicate IsValueOf(value: Option<Text>, attributes: seq<Attribute>, key: string) {
    var named := Named(attributes, key);
    && AttributesReadable(attributes)
    && (if value.None? then named == []
        else |named| == 1 && named[0].Attribute? && named[0].value == value
             && |value.value| <= MAX_XML_TEXT_NODE_BYTES)
  }

  /** What the loop computes: it succeeds with a value exactly when all attributes are readable, one
      and no more has the key, and that is its value, not too large; and with none exactly when none
      has the key. */
  lemma AttributeMeans(attributes: seq<Attribute>, key: string, value: Option<Text>)
    ensures AttributeFrom(attributes, key, None) == Ok(value)
            <==> IsValueOf(value, attributes, key)
  {
    hide ValidFrom;
    AttributeSearched(attributes, key, None, value);
  }

  lemma {:induction false} AttributeSearched(
    attributes: seq<Attribute>, key: string, found: Option<Text>, value: Option<Text>)
    ensures AttributeFrom(attributes, key, found) == Ok(value)
            <==> if found.None? then IsValueOf(value, attributes, key)
                 else value == found && IsValueOf(None, attributes, key)
    decreases |attributes|
  {
    hide ValidFrom;
    if attributes != [] {
      var first, tail := attributes[0], attributes[1..];
      assert attributes == [first] + tail;
      if first.Attribute? {
        assert AttributesReadable(attributes) <==> AttributesReadable(tail);
        AttributeSearched(tail, key, if first.key == key then first.value else found, value);
      }
    }
  }

  method AttributeValue(head: Head, key: string)
    returns (found: Result<Option<Text>, ExtractionError>)
    ensures found == AttributeFrom(head.attributes, key, None)
    ensures found.Ok? ==> IsValueOf(found.value, head.attributes, key)
    ensures found.Err? ==> forall value :: !IsValueOf(value, head.attributes, key)
  {
    hide ValidFrom, IsValueOf;
    forall value {
      AttributeMeans(head.attributes, key, value);
    }
    var value: Option<Text> := None;
    assert head.attributes[0..] == head.attributes;
    for next := 0 to |head.attributes|
      invariant AttributeFrom(head.attributes, key, None)
             == AttributeFrom(head.attributes[next..], key, value)
    {
      var attribute := head.attributes[next];
      assert head.attributes[next..][1..] == head.attributes[next + 1..];
      if attribute.BadAttribute? {
        return Err(InvalidOoxmlXml);
      }
      if attribute.key != key {
        continue;
      }
      if value.Some? || attribute.value.None? {
        return Err(InvalidOoxmlXml);
      }
      if |attribute.value.value| > MAX_XML_TEXT_NODE_BYTES {
        return Err(OoxmlStructureLimitExceeded);
      }
      value := attribute.value;
    }
    return Ok(value);
  }

  datatype Cell = Cell(
    reference: Bytes, cellType: Option<Text>, hasFormula: bool,
    rawValue: Text, inlineText: Text, inValue: bool, inText: bool)

  /** The cell a start tag opens: it must name a cell of the grid. */
  function OpenCell(head: Head): Result<Cell, ExtractionError> {
    var reference := AttributeFrom(head.attributes, "r", None);
    if reference.Err? then Err(reference.error)
    else if reference.value.None? || !IsCellReference(reference.value.value) then
      Err(InvalidOoxmlXml)
    else
      var cellType := AttributeFrom(head.attributes, "t", None);
      if cellType.Err? then Err(cellType.error)
      else Ok(Cell(reference.value.value, cellType.value, false, NO_TEXT, NO_TEXT, false, false))
  }

  /** `cell_value`: nothing for a formula; otherwise the shared string of that index, the inline
      text, or the raw value, as the type of the cell says. */
  function CellValue(cell: Cell, shared: seq<Text>): Result<Option<Text>, ExtractionError> {
    if cell.hasFormula then Ok(None)
    else if cell.cellType.None? then Ok(Some(cell.rawValue))
    else if cell.cellType.value == TYPE_SHARED then
      var index := ParseUnsigned(cell.rawValue, USIZE_MAX);
      if index.None? || index.value >= |shared| then Err(InvalidOoxmlXml)
      else Ok(Some(shared[index.value]))
    else if cell.cellType.value == TYPE_INLINE then Ok(Some(cell.inlineText))
    else if IsRawType(cell.cellType.value) then Ok(Some(cell.rawValue))
    else Err(InvalidOoxmlXml)
  }

  datatype State = State(cell: Option<Cell>, count: nat)

  const START := State(None, 0)

  /** Text inside a cell goes to the raw value while a value element is open, and otherwise to the
      inline text while a text element is open. */
  function WithText(cell: Cell, more: Text): Cell {
    if cell.inValue then cell.(rawValue := Push(cell.rawValue, more))
    else cell.(inlineText := Push(cell.inlineText, more))
  }

  function Closed(cell: Cell, limits: Limits, sheetNumber: nat, shared: seq<Text>)
    : Result<seq<Step>, ExtractionError>
    requires limits.Valid()
  {
    var value := CellValue(cell, shared);
    if value.Err? then Err(value.error)
    else if value.value.None? then Ok([])
    else Ok(UnitPieces(value.value.value, limits, CellLabel(sheetNumber, cell.reference)))
  }

  /** The loop body of `parse_xlsx_sheet`. */
  function React(limits: Limits, sheetNumber: nat, shared: seq<Text>, state: State, event: Event)
    : Progress<State>
    requires limits.Valid()
  {
    match event
    case Start(name, head) =>
      if name == CELL then
        if state.cell.Some? then Fail(InvalidOoxmlXml)
        else if OpenCell(head).Err? then Fail(OpenCell(head).error)
        else Next(state.(cell := Some(OpenCell(head).value)), [])
      else if state.cell.None? then Next(state, [])
      else Next(state.(cell := Some(Entered(state.cell.value, name))), [])
    case End(name) =>
      if name == CELL then
        if state.cell.None? then Fail(InvalidOoxmlXml)
        else if state.count + 1 > MAX_STRUCTURAL_UNITS then Fail(OoxmlStructureLimitExceeded)
        else
          var closed := Closed(state.cell.value, limits, sheetNumber, shared);
          if closed.Err? then Fail(closed.error) else Next(State(None, state.count + 1), closed.value)
      else if state.cell.None? then Next(state, [])
      else Next(state.(cell := Some(Left(state.cell.value, name))), [])
    case Decl(valid) => if valid then Next(state, []) else Fail(InvalidOoxmlXml)
    case _ =>
      if state.cell.None? || !CarriesText(event)
         || !(state.cell.value.inValue || state.cell.value.inText) then Next(state, [])
      else if TextOf(event).None? then Fail(InvalidOoxmlXml)
      else Next(state.(cell := Some(WithText(state.cell.value, TextOf(event).value))), [])
  }

  /** A start tag inside a cell. */
  function Entered(cell: Cell, name: Name): Cell {
    if name == FORMULA then cell.(hasFormula := true)
    else if name == VALUE then cell.(inValue := true)
    else if name == INLINE_TEXT then cell.(inText := true)
    else cell
  }

  /** An end tag inside a cell. */
  function Left(cell: Cell, name: Name): Cell {
    if name == VALUE then cell.(inValue := false)
    else if name == INLINE_TEXT then cell.(inText := false)
    else cell
  }

  function BodyOf(limits: Limits, sheetNumber: nat, shared: seq<Text>): Body<State>
    requires limits.Valid()
  {
    (state: State, event: Event) => React(limits, sheetNumber, shared, state, event)
  }

  const COMPLETE: State -> bool := (state: State) => state.cell.None?

  function SheetPlan(events: seq<Event>, limits: Limits, sheetNumber: nat, shared: seq<Text>)
    : seq<Step>
    requires limits.Valid()
  {
    StreamPlan(BodyOf(limits, sheetNumber, shared), COMPLETE, Guard(0, 0), START, events)
  }

  method ParseSheet(
    session: Session, events: seq<Event>, limits: Limits, sheetNumber: nat, shared: seq<Text>)
    returns (error: Option<ExtractionError>)
    requires limits.Valid()
    modifies session
    ensures Outcome(session.State(), error)
         == Execute(SheetPlan(events, limits, sheetNumber, shared), session.BudgetOf(limits),
                    old(session.State()))
  {
    hide Execute, StreamPlan, Pieces, UnitPieces, ValidFrom, GuardFault, AttributeFrom,
         IsCellReference, CellValue, TextOf, IsValueOf;
    ghost var budget, body := session.BudgetOf(limits), BodyOf(limits, sheetNumber, shared);
    ghost var goal := Execute(SheetPlan(events, limits, sheetNumber, shared), budget,
                              session.State());
    var guard := new XmlGuard();
    var cell: Option<Cell>, cellCount: nat := None, 0;
    assert events[0..] == events;
    for next := 0 to |events|
      invariant fresh(guard)
      invariant goal == Execute(StreamPlan(body, COMPLETE, guard.State(), State(cell, cellCount),
                                           events[next..]),
                                budget, session.State())
    {
      var event := events[next];
      StreamTurn(body, COMPLETE, guard.State(), State(cell, cellCount), events[next..], budget,
                 session.State());
      assert events[next..][1..] == events[next + 1..];
      var stop := session.Check();
      if stop.Some? {
        return Some(Stopped(stop.value));
      }
      if event.Malformed? {
        return Some(InvalidOoxmlXml);
      }
      if (event.Start? || event.Empty? || event.End?) && event.name.namespace.Undeclared? {
        return Some(InvalidOoxmlXml);
      }
      var fault := guard.Observe(event);
      if fault.Some? {
        return fault;
      }
      ExecuteNothing(budget, session.State());
      if event.Start? && event.name == CELL {
        if cell.Some? {
          return Some(InvalidOoxmlXml);
        }
        var reference := AttributeValue(event.head, "r");
        if reference.Err? {
          return Some(reference.error);
        }
        if reference.value.None? || !IsCellReference(reference.value.value) {
          return Some(InvalidOoxmlXml);
        }
        var cellType := AttributeValue(event.head, "t");
        if cellType.Err? {
          return Some(cellType.error);
        }
        cell := Some(Cell(reference.value.value, cellType.value, false, NO_TEXT, NO_TEXT, false,
                          false));
      } else if event.Start? && event.name == FORMULA && cell.Some? {
        cell := Some(cell.value.(hasFormula := true));
      } else if event.Start? && event.name == VALUE && cell.Some? {
        cell := Some(cell.value.(inValue := true));
      } else if event.Start? && event.name == INLINE_TEXT && cell.Some? {
        cell := Some(cell.value.(inText := true));
      } else if CarriesText(event) && cell.Some? && cell.value.inValue {
        if TextOf(event).None? {
          return Some(InvalidOoxmlXml);
        }
        cell := Some(cell.value.(rawValue := Push(cell.value.rawValue, TextOf(event).value)));
      } else if CarriesText(event) && cell.Some? && cell.value.inText {
        if TextOf(event).None? {
          return Some(InvalidOoxmlXml);
        }
        cell := Some(cell.value.(inlineText := Push(cell.value.inlineText, TextOf(event).value)));
      } else if event.End? && event.name == VALUE && cell.Some? {
        cell := Some(cell.value.(inValue := false));
      } else if event.End? && event.name == INLINE_TEXT && cell.Some? {
        cell := Some(cell.value.(inText := false));
      } else if event.End? && event.name == CELL {
        if cell.None? {
          return Some(InvalidOoxmlXml);
        }
        var completed := cell.value;
        cell := None;
        cellCount := cellCount + 1;
        if cellCount > MAX_STRUCTURAL_UNITS {
          return Some(OoxmlStructureLimitExceeded);
        }
        var value := CellValue(completed, shared);
        if value.Err? {
          return Some(value.error);
        }
        if value.value.Some? {
          var failure := session.AppendStructuralChunks(
            value.value.value, limits, CellLabel(sheetNumber, completed.reference));
          if failure.Some? {
            return failure;
          }
        }
      } else if event.Decl? && !event.valid {
        return Some(InvalidOoxmlXml);
      }
    }
    EndTurn(body, COMPLETE, guard.State(), State(cell, cellCount), budget, session.State());
    assert events[|events|..] == [];
    var stop := session.Check();
    if stop.Some? {
      return Some(Stopped(stop.value));
    }
    var fault := guard.ObserveEof();
    if fault.Some? {
      return fault;
    }
    if cell.Some? {
      return Some(InvalidOoxmlXml);
    }
    return if guard.depth == 0 then None else Some(InvalidOoxmlXml);
  }

  // What the stream of a tree comes to.

  /** The flags for values and for inline text. */
  datatype Flags = Flags(value: bool, text: bool)

  const NO_FLAGS := Flags(false, false)
  const RAW_RULE := Rule(VALUE, false)

  function Inside(flags: Flags, name: Name): Flags {
    Flags(flags.value || name == VALUE, flags.text || name == INLINE_TEXT)
  }

  function NodeFlagsAfter(node: Node, flags: Flags): Flags {
    Flags(NodeFlagAfter(node, VALUE, flags.value), NodeFlagAfter(node, INLINE_TEXT, flags.text))
  }

  function FlagsAfter(nodes: seq<Node>, flags: Flags): Flags {
    Flags(FlagAfter(nodes, VALUE, flags.value), FlagAfter(nodes, INLINE_TEXT, flags.text))
  }

  /** Text is inline text while the flag for it is set and that for values is not. */
  function InlineLeaf(event: Event, flags: Flags): Text {
    if flags.text && !flags.value then Plain(event) else NO_TEXT
  }

  function HeardInline(nodes: seq<Node>, flags: Flags): Text {
    if nodes == [] then NO_TEXT
    else
      Push(NodeHeardInline(nodes[0], flags),
           HeardInline(nodes[1..], NodeFlagsAfter(nodes[0], flags)))
  }

  function NodeHeardInline(node: Node, flags: Flags): Text {
    match node
    case Leaf(event) => InlineLeaf(event, flags)
    case Element(name, _, children) => HeardInline(children, Inside(flags, name))
  }

  /** What a cell has gathered from its content. */
  datatype Content = Content(hasFormula: bool, raw: Text, inline: Text)

  function HeardContent(nodes: seq<Node>, flags: Flags): Content {
    Content(Count(nodes, FORMULA) > 0, Heard(nodes, RAW_RULE, flags.value),
            HeardInline(nodes, flags))
  }

  function NodeHeardContent(node: Node, flags: Flags): Content {
    Content(NodeCount(node, FORMULA) > 0, NodeHeard(node, RAW_RULE, flags.value),
            NodeHeardInline(node, flags))
  }

  /** All text that is met while a flag is set decodes, and declarations are valid. */
  predicate CellDecodes(nodes: seq<Node>, flags: Flags) {
    nodes == []
    || (NodeCellDecodes(nodes[0], flags)
        && CellDecodes(nodes[1..], NodeFlagsAfter(nodes[0], flags)))
  }

  predicate NodeCellDecodes(node: Node, flags: Flags) {
    match node
    case Leaf(event) => LeafDecodes(event, flags.value || flags.text)
    case Element(name, _, children) => CellDecodes(children, Inside(flags, name))
  }

  function FlagsOf(cell: Cell): Flags {
    Flags(cell.inValue, cell.inText)
  }

  function WithFlags(cell: Cell, flags: Flags): Cell {
    cell.(inValue := flags.value, inText := flags.text)
  }

  function Absorb(cell: Cell, content: Content): Cell {
    cell.(hasFormula := cell.hasFormula || content.hasFormula,
          rawValue := Push(cell.rawValue, content.raw),
          inlineText := Push(cell.inlineText, content.inline))
  }

  lemma AbsorbNothing(cell: Cell)
    ensures Absorb(cell, HeardContent([], FlagsOf(cell))) == cell
  {
    PushNothing(cell.rawValue);
    PushNothing(cell.inlineText);
  }

  lemma AbsorbCons(cell: Cell, nodes: seq<Node>, flags: Flags)
    requires nodes != []
    ensures Absorb(Absorb(cell, NodeHeardContent(nodes[0], flags)),
                   HeardContent(nodes[1..], NodeFlagsAfter(nodes[0], flags)))
         == Absorb(cell, HeardContent(nodes, flags))
  {
    hide ValidFrom, NodeHeard, NodeHeardInline, NodeFlagAfter;
    var first, rest := NodeHeardContent(nodes[0], flags),
                       HeardContent(nodes[1..], NodeFlagsAfter(nodes[0], flags));
    assert cell.rawValue + first.raw + rest.raw == cell.rawValue + (first.raw + rest.raw);
    assert cell.inlineText + first.inline + rest.inline
        == cell.inlineText + (first.inline + rest.inline);
  }

  /** Inside a cell the stream goes through exactly when there is no cell and everything that is heard
      decodes; the cell then absorbs what is heard. */
  lemma {:induction false} WalkInside(
    nodes: seq<Node>, depth: nat, body: Body<State>, limits: Limits, sheetNumber: nat,
    shared: seq<Text>, state: State)
    requires limits.Valid() && body == BodyOf(limits, sheetNumber, shared)
    requires Acceptable(nodes, depth) && state.cell.Some?
    ensures var walk, cell := Walk(body, state, nodes), state.cell.value;
            var flags := FlagsOf(cell);
            && (walk.final.Some? <==> Apart(nodes, CELL, true) && CellDecodes(nodes, flags))
            && (walk.final.Some? ==>
                  && walk.final.value
                     == state.(cell := Some(WithFlags(Absorb(cell, HeardContent(nodes, flags)),
                                                      FlagsAfter(nodes, flags))))
                  && Silent(walk.plan))
    decreases nodes
  {
    hide ValidFrom, React, WalkNode, Silent, HeardContent, NodeHeardContent;
    var cell := state.cell.value;
    if nodes == [] {
      AbsorbNothing(cell);
      NothingIsSilent();
    } else {
      var node, tail := nodes[0], nodes[1..];
      NodeInside(node, depth, body, limits, sheetNumber, shared, state);
      var first := WalkNode(body, state, node);
      if first.final.Some? {
        var middle := first.final.value;
        WalkInside(tail, depth, body, limits, sheetNumber, shared, middle);
        if Walk(body, middle, tail).final.Some? {
          SilentConcat(first.plan, Walk(body, middle, tail).plan);
          AbsorbCons(cell, nodes, FlagsOf(cell));
        }
      }
    }
  }

  lemma {:induction false} NodeInside(
    node: Node, depth: nat, body: Body<State>, limits: Limits, sheetNumber: nat,
    shared: seq<Text>, state: State)
    requires limits.Valid() && body == BodyOf(limits, sheetNumber, shared)
    requires Acceptable([node], depth) && state.cell.Some?
    ensures var walk, cell := WalkNode(body, state, node), state.cell.value;
            var flags := FlagsOf(cell);
            && (walk.final.Some? <==> NodeApart(node, CELL, true) && NodeCellDecodes(node, flags))
            && (walk.final.Some? ==>
                  && walk.final.value
                     == state.(cell := Some(WithFlags(Absorb(cell, NodeHeardContent(node, flags)),
                                                      NodeFlagsAfter(node, flags))))
                  && Silent(walk.plan))
    decreases node
  {
    hide ValidFrom, Walk, WalkNode, Silent, React, Entered, Left, Absorb, WithFlags, HeardContent,
         NodeHeardContent, FlagsAfter, NodeFlagsAfter;
    var cell := state.cell.value;
    match node {
      case Leaf(event) =>
        LeafInside(event, body, limits, sheetNumber, shared, state);
        LeafWalk(body, state, event);
        LeafKeepsFlags(event, Absorb(cell, NodeHeardContent(node, FlagsOf(cell))), cell);
      case Element(name, head, children) =>
        TagsInside(name, head, limits, sheetNumber, shared, state);
        if name == CELL {
          ElementFails(body, state, node);
        } else {
          var inside := state.(cell := Some(Entered(cell, name)));
          WalkInside(children, depth + 1, body, limits, sheetNumber, shared, inside);
          var inner := Walk(body, inside, children);
          if inner.final.None? {
            ElementFails(body, state, node);
          } else {
            var end := inner.final.value;
            TagsInside(name, head, limits, sheetNumber, shared, end);
            ElementWalk(body, state, node, inside, end,
                        end.(cell := Some(Left(end.cell.value, name))), []);
            SilentElement(inner.plan);
            LeaveElement(cell, node);
          }
        }
    }
  }

  /** How the parser reacts to the tags of an element inside a cell. */
  lemma TagsInside(
    name: Name, head: Head, limits: Limits, sheetNumber: nat, shared: seq<Text>, state: State)
    requires limits.Valid() && state.cell.Some?
    ensures var atStart := React(limits, sheetNumber, shared, state, Start(name, head));
            if name == CELL then atStart.Fail?
            else atStart == Next(state.(cell := Some(Entered(state.cell.value, name))), [])
    ensures name != CELL ==>
              React(limits, sheetNumber, shared, state, End(name))
              == Next(state.(cell := Some(Left(state.cell.value, name))), [])
    ensures FlagsOf(Entered(state.cell.value, name)) == Inside(FlagsOf(state.cell.value), name)
  {
    hide ValidFrom, Closed, OpenCell;
  }

  /** What an element has added to the cell once it is left. */
  lemma LeaveElement(cell: Cell, node: Node)
    requires node.Element?
    ensures var flags := FlagsOf(cell);
            var inside := Inside(flags, node.name);
            Left(WithFlags(Absorb(Entered(cell, node.name), HeardContent(node.children, inside)),
                           FlagsAfter(node.children, inside)),
                 node.name)
            == WithFlags(Absorb(cell, NodeHeardContent(node, flags)), NodeFlagsAfter(node, flags))
  {
    hide ValidFrom, Heard, HeardInline, FlagAfter, Count, Push;
  }

  lemma LeafKeepsFlags(event: Event, after: Cell, cell: Cell)
    requires FlagsOf(after) == FlagsOf(cell)
    ensures WithFlags(after, NodeFlagsAfter(Leaf(event), FlagsOf(cell))) == after
  {
  }

  lemma LeafInside(
    event: Event, body: Body<State>, limits: Limits, sheetNumber: nat, shared: seq<Text>,
    state: State)
    requires limits.Valid() && body == BodyOf(limits, sheetNumber, shared)
    requires AcceptableLeaf(event) && state.cell.Some?
    ensures var once, cell := Once(body, state, event), state.cell.value;
            if LeafDecodes(event, cell.inValue || cell.inText) then
              once == Trace([Gate],
                            Some(state.(cell := Some(Absorb(
                                          cell, NodeHeardContent(Leaf(event), FlagsOf(cell)))))))
            else once.final.None?
    ensures Silent([Gate])
    ensures var cell := state.cell.value;
            FlagsOf(Absorb(cell, NodeHeardContent(Leaf(event), FlagsOf(cell)))) == FlagsOf(cell)
  {
    hide ValidFrom, Pieces, HeadFault;
    PushNothing(state.cell.value.rawValue);
    PushNothing(state.cell.value.inlineText);
    assert [Gate] + [] == [Gate];
  }

  /** The unit a cell element contributes, from what it has gathered: none for a formula; None when it
      is refused. */
  function CellUnits(head: Head, content: Content, sheetNumber: nat, shared: seq<Text>)
    : Option<seq<Unit>>
  {
    if OpenCell(head).Err? then None
    else
      var cell := Absorb(OpenCell(head).value, content);
      var value := CellValue(cell, shared);
      if value.Err? then None
      else if value.value.None? then Some([])
      else Some([Unit(0, value.value.value, CellLabel(sheetNumber, cell.reference))])
  }

  function Append(a: Option<seq<Unit>>, b: Option<seq<Unit>>): Option<seq<Unit>> {
    if a.None? || b.None? then None else Some(a.value + b.value)
  }

  /** The values of the cells of a forest as they are heard, in document order; None when a cell is
      refused. */
  function HeardUnits(nodes: seq<Node>, sheetNumber: nat, shared: seq<Text>): Option<seq<Unit>> {
    if nodes == [] then Some([])
    else Append(NodeHeardUnits(nodes[0], sheetNumber, shared),
                HeardUnits(nodes[1..], sheetNumber, shared))
  }

  function NodeHeardUnits(node: Node, sheetNumber: nat, shared: seq<Text>): Option<seq<Unit>> {
    match node
    case Element(name, head, children) =>
      if name == CELL then CellUnits(head, HeardContent(children, NO_FLAGS), sheetNumber, shared)
      else HeardUnits(children, sheetNumber, shared)
    case Leaf(_) => Some([])
  }

  /** All text that is met in a cell while a flag is set decodes, and declarations are valid. */
  predicate SheetDecodes(nodes: seq<Node>) {
    nodes == [] || (NodeSheetDecodes(nodes[0]) && SheetDecodes(nodes[1..]))
  }

  predicate NodeSheetDecodes(node: Node) {
    match node
    case Element(name, _, children) =>
      if name == CELL then CellDecodes(children, NO_FLAGS) else SheetDecodes(children)
    case Leaf(event) => event.Decl? ==> event.valid
  }

  /** What a walk outside cells comes to. */
  ghost predicate Yields(
    walk: Trace<State>, state: State, goesThrough: bool, cells: nat, units: Option<seq<Unit>>,
    limits: Limits)
    requires limits.Valid()
  {
    && (walk.final.Some? <==>
          goesThrough && units.Some? && state.count + cells <= MAX_STRUCTURAL_UNITS)
    && (walk.final.Some? ==>
          && walk.final.value == State(None, state.count + cells)
          && PiecesOf(walk.plan) == AllPieces(units.value, limits)
          && RejectsNothing(walk.plan))
  }

  /** Outside cells the stream goes through exactly when no cell is inside another, there are not too
      many, everything that is heard decodes, and no cell is refused; it then emits the values of the
      cells. */
  lemma {:induction false} WalkOutside(
    nodes: seq<Node>, depth: nat, body: Body<State>, limits: Limits, sheetNumber: nat,
    shared: seq<Text>, state: State)
    requires limits.Valid() && body == BodyOf(limits, sheetNumber, shared)
    requires Acceptable(nodes, depth) && state.cell.None? && state.count <= MAX_STRUCTURAL_UNITS
    ensures Yields(Walk(body, state, nodes), state,
                   Apart(nodes, CELL, false) && SheetDecodes(nodes), Count(nodes, CELL),
                   HeardUnits(nodes, sheetNumber, shared), limits)
    decreases nodes, 0
  {
    hide ValidFrom, React, WalkNode, Pieces, PiecesOf, AllPieces, RejectsNothing, NodeHeardUnits;
    if nodes == [] {
      NothingYielded(limits);
    } else {
      var node, tail := nodes[0], nodes[1..];
      NodeOutside(node, depth, body, limits, sheetNumber, shared, state);
      var first := WalkNode(body, state, node);
      if first.final.Some? {
        var middle := first.final.value;
        WalkOutside(tail, depth, body, limits, sheetNumber, shared, middle);
        var rest := Walk(body, middle, tail);
        if rest.final.Some? {
          PiecesOfConcat(first.plan, rest.plan);
          RejectsNothingConcat(first.plan, rest.plan);
          AllPiecesConcat(NodeHeardUnits(node, sheetNumber, shared).value,
                          HeardUnits(tail, sheetNumber, shared).value, limits);
        }
      }
    }
  }

  lemma NothingYielded(limits: Limits)
    requires limits.Valid()
    ensures PiecesOf([]) == [] && AllPieces([], limits) == [] && RejectsNothing([])
    ensures PiecesOf([Gate]) == [] && RejectsNothing([Gate])
  {
    WithoutPieces([Gate]);
  }

  lemma {:induction false} NodeOutside(
    node: Node, depth: nat, body: Body<State>, limits: Limits, sheetNumber: nat,
    shared: seq<Text>, state: State)
    requires limits.Valid() && body == BodyOf(limits, sheetNumber, shared)
    requires Acceptable([node], depth) && state.cell.None? && state.count <= MAX_STRUCTURAL_UNITS
    ensures Yields(WalkNode(body, state, node), state,
                   NodeApart(node, CELL, false) && NodeSheetDecodes(node), NodeCount(node, CELL),
                   NodeHeardUnits(node, sheetNumber, shared), limits)
    decreases node, 0
  {
    hide ValidFrom, Walk, Pieces, PiecesOf, AllPieces, RejectsNothing, React, CellUnits,
         HeardContent;
    match node {
      case Leaf(event) =>
        LeafOutside(event, body, limits, sheetNumber, shared, state);
        NothingYielded(limits);
      case Element(name, head, children) =>
        if name == CELL {
          CellNode(node, depth, body, limits, sheetNumber, shared, state);
        } else {
          OtherNode(node, depth, body, limits, sheetNumber, shared, state);
        }
    }
  }

  lemma LeafOutside(
    event: Event, body: Body<State>, limits: Limits, sheetNumber: nat, shared: seq<Text>,
    state: State)
    requires limits.Valid() && body == BodyOf(limits, sheetNumber, shared)
    requires AcceptableLeaf(event) && state.cell.None?
    ensures var once := Once(body, state, event);
            if event.Decl? && !event.valid then once.final.None?
            else once == Trace([Gate], Some(state))
  {
    hide ValidFrom, Pieces, HeadFault;
    assert [Gate] + [] == [Gate];
  }

  lemma {:induction false} OtherNode(
    node: Node, depth: nat, body: Body<State>, limits: Limits, sheetNumber: nat,
    shared: seq<Text>, state: State)
    requires limits.Valid() && body == BodyOf(limits, sheetNumber, shared)
    requires node.Element? && Acceptable(node.children, depth + 1) && node.name != CELL
    requires state.cell.None? && state.count <= MAX_STRUCTURAL_UNITS
    ensures Yields(WalkNode(body, state, node), state,
                   Apart(node.children, CELL, false) && SheetDecodes(node.children),
                   Count(node.children, CELL), HeardUnits(node.children, sheetNumber, shared), limits)
    decreases node.children, 1
  {
    hide ValidFrom, Walk, WalkNode, Pieces, PiecesOf, AllPieces, RejectsNothing;
    WalkOutside(node.children, depth + 1, body, limits, sheetNumber, shared, state);
    var inner := Walk(body, state, node.children);
    if inner.final.None? {
      ElementFails(body, state, node);
    } else {
      ElementWalk(body, state, node, state, inner.final.value, inner.final.value, []);
      Surrounded(inner.plan, []);
      NothingYielded(limits);
    }
  }

  /** A cell element opens a cell, gathers its content, and emits its value. */
  lemma CellNode(
    node: Node, depth: nat, body: Body<State>, limits: Limits, sheetNumber: nat,
    shared: seq<Text>, state: State)
    requires limits.Valid() && body == BodyOf(limits, sheetNumber, shared)
    requires node.Element? && node.name == CELL && Acceptable(node.children, depth + 1)
    requires state.cell.None? && state.count <= MAX_STRUCTURAL_UNITS
    ensures Yields(WalkNode(body, state, node), state,
                   Apart(node.children, CELL, true) && CellDecodes(node.children, NO_FLAGS),
                   NodeCount(node, CELL),
                   CellUnits(node.head, HeardContent(node.children, NO_FLAGS), sheetNumber, shared),
                   limits)
  {
    hide ValidFrom, Walk, WalkNode, Pieces, PiecesOf, AllPieces, RejectsNothing, CellValue,
         AttributeFrom, IsCellReference, HeardContent;
    if OpenCell(node.head).Err? {
      ElementFails(body, state, node);
    } else {
      var cell := OpenCell(node.head).value;
      var atStart := state.(cell := Some(cell));
      WalkInside(node.children, depth + 1, body, limits, sheetNumber, shared, atStart);
      var inner := Walk(body, atStart, node.children);
      if inner.final.None? {
        ElementFails(body, state, node);
      } else {
        var full := inner.final.value.cell.value;
        var content := HeardContent(node.children, NO_FLAGS);
        NoneInside(node.children, CELL);
        FlagsDoNotMatter(Absorb(cell, content), FlagsOf(full), limits, sheetNumber, shared);
        var closed := Closed(full, limits, sheetNumber, shared);
        if closed.Err? || state.count + 1 > MAX_STRUCTURAL_UNITS {
          ElementFails(body, state, node);
        } else {
          ElementWalk(body, state, node, atStart, inner.final.value, State(None, state.count + 1),
                      closed.value);
          Surrounded(inner.plan, closed.value);
          WithoutPieces(inner.plan);
          ClosedPieces(full, limits, sheetNumber, shared);
        }
      }
    }
  }

  lemma FlagsDoNotMatter(cell: Cell, flags: Flags, limits: Limits, sheetNumber: nat, shared: seq<Text>)
    requires limits.Valid()
    ensures CellValue(WithFlags(cell, flags), shared) == CellValue(cell, shared)
    ensures Closed(WithFlags(cell, flags), limits, sheetNumber, shared)
         == Closed(cell, limits, sheetNumber, shared)
  {
    hide ValidFrom, Pieces;
  }

  lemma ClosedPieces(cell: Cell, limits: Limits, sheetNumber: nat, shared: seq<Text>)
    requires limits.Valid() && Closed(cell, limits, sheetNumber, shared).Ok?
    ensures var closed := Closed(cell, limits, sheetNumber, shared).value;
            var value := CellValue(cell, shared).value;
            && RejectsNothing(closed)
            && PiecesOf(closed)
               == AllPieces(if value.None? then []
                            else [Unit(0, value.value, CellLabel(sheetNumber, cell.reference))],
                            limits)
  {
    hide ValidFrom, Pieces, CellValue;
    var value := CellValue(cell, shared).value;
    if value.Some? {
      var name := CellLabel(sheetNumber, cell.reference);
      OnlyPieces(value.value, 0, 0, limits, name);
      var unit := Unit(0, value.value, name);
      assert [unit][1..] == [];
      var closed := Closed(cell, limits, sheetNumber, shared).value;
      assert closed + [] == closed;
    }
  }

  /** What the parser takes: no cell inside a cell, no more cells than are allowed, everything that is
      heard decodes, and every cell names a cell of the grid and has a value; a shared string index
      beyond the table refuses the whole sheet. */
  predicate Taken(tree: seq<Node>, sheetNumber: nat, shared: seq<Text>) {
    && Apart(tree, CELL, false) && Count(tree, CELL) <= MAX_STRUCTURAL_UNITS
    && SheetDecodes(tree) && HeardUnits(tree, sheetNumber, shared).Some?
  }

  /** On every tree that the guard lets through, the parser takes its events exactly when the tree is
      as described by `Taken`, and refuses them otherwise; it then emits the chunks of the values of
      the cells without a formula, in document order. */
  lemma TakesTreeIff(tree: seq<Node>, limits: Limits, sheetNumber: nat, shared: seq<Text>)
    requires limits.Valid() && Readable(tree)
    ensures var plan := SheetPlan(Flatten(tree), limits, sheetNumber, shared);
            && (RejectsNothing(plan) <==> Taken(tree, sheetNumber, shared))
            && (RejectsNothing(plan) ==>
                  PiecesOf(plan) == AllPieces(HeardUnits(tree, sheetNumber, shared).value, limits))
  {
    hide ValidFrom, Pieces, Flatten, Walk, RejectsNothing, Apart, PiecesOf, AllPieces, StreamPlan,
         HeardUnits, Acceptable, SheetDecodes;
    var body := BodyOf(limits, sheetNumber, shared);
    var walk := Walk(body, START, tree);
    TreePlan(body, COMPLETE, START, tree);
    WalkOutside(tree, 0, body, limits, sheetNumber, shared, START);
    if walk.final.None? {
      FailedWalkRejects(body, START, tree);
      assert walk.plan + [] == walk.plan;
    } else {
      NothingYielded(limits);
      RejectsNothingConcat(walk.plan, [Gate]);
      PiecesOfConcat(walk.plan, [Gate]);
    }
  }

  /** All that the parser itself objects to is invalid XML, but for one cell too many, and an attribute of a
      cell that is too large. */
  lemma ObjectsWith(limits: Limits, sheetNumber: nat, shared: seq<Text>, state: State, event: Event)
    requires limits.Valid() && React(limits, sheetNumber, shared, state, event).Fail?
    ensures React(limits, sheetNumber, shared, state, event).error
            == if || (event.End? && state.cell.Some? && state.count >= 100_000)
                  || (event.Start? && state.cell.None? && HasLargeAttribute(event.head))
               then OoxmlStructureLimitExceeded else InvalidOoxmlXml
  {
    hide ValidFrom, AttributeFrom, IsCellReference, Pieces, UnitPieces;
    if event.Start? && state.cell.None? {
      HeadRefusedWith(event.head);
    }
  }

  /** Whether the search for the name or the type of a cell comes upon a value that is too large. */
  predicate HasLargeAttribute(head: Head) {
    || AttributeFrom(head.attributes, "r", None) == Err(OoxmlStructureLimitExceeded)
    || (AttributeFrom(head.attributes, "r", None).Ok?
        && AttributeFrom(head.attributes, "r", None).value.Some?
        && IsCellReference(AttributeFrom(head.attributes, "r", None).value.value)
        && AttributeFrom(head.attributes, "t", None) == Err(OoxmlStructureLimitExceeded))
  }

  lemma HeadRefusedWith(head: Head)
    requires OpenCell(head).Err?
    ensures OpenCell(head).error
            == if HasLargeAttribute(head) then OoxmlStructureLimitExceeded else InvalidOoxmlXml
  {
    hide ValidFrom, IsCellReference;
    AttributeRefusedWith(head.attributes, "r", None);
    AttributeRefusedWith(head.attributes, "t", None);
  }

  /** The first attribute with the key, before which all are readable, is too large. */
  predicate FirstIsLarge(attributes: seq<Attribute>, key: string, k: nat) {
    && k < |attributes| && attributes[k].Attribute? && attributes[k].key == key
    && attributes[k].value.Some? && |attributes[k].value.value| > 256 * 1024
    && forall j :: 0 <= j < k ==> attributes[j].Attribute? && attributes[j].key != key
  }

  /** The search fails for size exactly when the first attribute with the key is too large, and otherwise as
      invalid. */
  lemma {:induction false} AttributeRefusedWith(
    attributes: seq<Attribute>, key: string, found: Option<Text>)
    ensures var search := AttributeFrom(attributes, key, found);
            && (search == Err(OoxmlStructureLimitExceeded)
                <==> found.None? && exists k :: 0 <= k < |attributes| && FirstIsLarge(attributes, key, k))
            && (search.Err? ==> search.error in {InvalidOoxmlXml, OoxmlStructureLimitExceeded})
    decreases |attributes|
  {
    hide ValidFrom;
    if attributes != [] && attributes[0].Attribute? {
      var first, tail := attributes[0], attributes[1..];
      AttributeRefusedWith(tail, key, if first.key == key then first.value else found);
      if k :| 0 <= k < |tail| && FirstIsLarge(tail, key, k) {
        assert first.key != key ==> FirstIsLarge(attributes, key, k + 1);
      }
      if k :| 0 <= k < |attributes| && FirstIsLarge(attributes, key, k) {
        assert k > 0 ==> FirstIsLarge(tail, key, k - 1);
      }
      if first.key == key && first.value.Some? && |first.value.value| > 256 * 1024 {
        assert FirstIsLarge(attributes, key, 0);
      }
    }
  }

  lemma ChecksMade(events: seq<Event>, limits: Limits, sheetNumber: nat, shared: seq<Text>)
    requires limits.Valid() && RejectsNothing(SheetPlan(events, limits, sheetNumber, shared))
    ensures var plan := SheetPlan(events, limits, sheetNumber, shared);
            |plan| == |events| + 1 + |PiecesOf(plan)|
  {
    hide StreamPlan, RejectsNothing, PiecesOf, ValidFrom, UnitPieces, CellValue, OpenCell;
    forall state: State, event: Event | React(limits, sheetNumber, shared, state, event).Next?
      ensures var emitted := React(limits, sheetNumber, shared, state, event).emitted;
              PiecesOf(emitted) == emitted
    {
      WithoutPieces([]);
      if event.End? && event.name == CELL {
        var cell := state.cell.value;
        var value := CellValue(cell, shared).value;
        if value.Some? {
          UnitKeepsPieces(value.value, limits, CellLabel(sheetNumber, cell.reference));
        }
      }
    }
    ChecksOfStream(BodyOf(limits, sheetNumber, shared), COMPLETE, START, events);
  }
}
