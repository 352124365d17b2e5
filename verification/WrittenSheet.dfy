/** Worksheets as they are written, and what is read of them: the contents of the cells, as they were
    meant. */
module WrittenSheet {
  import opened Wrappers
  import opened Utf8
  import opened Execution
  import opened Xml
  import opened Gathering
  import opened Recovery
  import opened Spelling
  import opened Sheet
  import opened CellMeaning

  const V := Name(Spreadsheet, "v")
  const T := Name(Spreadsheet, "t")
  const F := Name(Spreadsheet, "f")

  /** What stands in a cell: values, text elements, formulas, and whatever else around and between them. A
      text element may stand in a value, or a value in a text element; it is then a value. */
  datatype CellPart =
    | Value(head: Head, parts: seq<Part>)
    | InlineText(head: Head, parts: seq<Part>)
    | TextInValue(head: Head, inner: Head, parts: seq<Part>)
    | ValueInText(head: Head, inner: Head, parts: seq<Part>)
    | Formula(head: Head, parts: seq<Part>)
    | LoosePart(part: Part)
    | VoidPart(name: Name, head: Head)
    | Wrapped(name: Name, head: Head, inside: seq<CellPart>)

  function PartNode(part: CellPart): Node {
    match part
    case Value(head, parts) => Element(V, head, Leaves(parts))
    case InlineText(head, parts) => Element(T, head, Leaves(parts))
    case TextInValue(head, inner, parts) => Element(V, head, [Element(T, inner, Leaves(parts))])
    case ValueInText(head, inner, parts) => Element(T, head, [Element(V, inner, Leaves(parts))])
    case Formula(head, parts) => Element(F, head, Leaves(parts))
    case LoosePart(part) => Leaf(EventOf(part))
    case VoidPart(name, head) => Leaf(Empty(name, head))
    case Wrapped(name, head, inside) => Element(name, head, PartNodes(inside))
  }

  function PartNodes(parts: seq<CellPart>): seq<Node> {
    if parts == [] then [] else [PartNode(parts[0])] + PartNodes(parts[1..])
  }

  predicate PartPlaced(part: CellPart, depth: nat) {
    match part
    case Value(head, parts) => HeadFault(head).None? && depth < 128 && AllFit(parts)
    case InlineText(head, parts) => HeadFault(head).None? && depth < 128 && AllFit(parts)
    case TextInValue(head, inner, parts) =>
      HeadFault(head).None? && HeadFault(inner).None? && depth < 127 && AllFit(parts)
    case ValueInText(head, inner, parts) =>
      HeadFault(head).None? && HeadFault(inner).None? && depth < 127 && AllFit(parts)
    case Formula(head, parts) => HeadFault(head).None? && depth < 128 && AllFit(parts)
    case LoosePart(part) => FitsGuard(part)
    case VoidPart(name, head) => HeadFault(head).None? && name.namespace != Undeclared
    case Wrapped(name, head, inside) =>
      && HeadFault(head).None? && name.namespace != Undeclared && name !in {V, T, F, C}
      && depth < 128 && PartsPlaced(inside, depth + 1)
  }

  predicate PartsPlaced(parts: seq<CellPart>, depth: nat) {
    parts == [] || (PartPlaced(parts[0], depth) && PartsPlaced(parts[1..], depth))
  }

  predicate PartLegible(part: CellPart) {
    match part
    case Value(_, parts) => AllLegible(parts)
    case InlineText(_, parts) => AllLegible(parts)
    case TextInValue(_, _, parts) => AllLegible(parts)
    case ValueInText(_, _, parts) => AllLegible(parts)
    case Wrapped(_, _, inside) => PartsLegible(inside)
    case _ => true
  }

  predicate PartsLegible(parts: seq<CellPart>) {
    parts == [] || (PartLegible(parts[0]) && PartsLegible(parts[1..]))
  }

  const NOTHING := Content(false, NO_TEXT, NO_TEXT)

  function Together(a: Content, b: Content): Content {
    Content(a.hasFormula || b.hasFormula, Push(a.raw, b.raw), Push(a.inline, b.inline))
  }

  /** What the parts of a cell make up: its value, its inline text, and whether it has a formula, whose
      text does not matter. */
  function ContentOfPart(part: CellPart): Content {
    match part
    case Value(_, parts) => NOTHING.(raw := Spelled(parts))
    case InlineText(_, parts) => NOTHING.(inline := Spelled(parts))
    case TextInValue(_, _, parts) => NOTHING.(raw := Spelled(parts))
    case ValueInText(_, _, parts) => NOTHING.(raw := Spelled(parts))
    case Formula(_, _) => NOTHING.(hasFormula := true)
    case LoosePart(_) => NOTHING
    case VoidPart(_, _) => NOTHING
    case Wrapped(_, _, inside) => ContentOfParts(inside)
  }

  function ContentOfParts(parts: seq<CellPart>): Content {
    if parts == [] then NOTHING
    else Together(ContentOfPart(parts[0]), ContentOfParts(parts[1..]))
  }

  predicate Reads(nodes: seq<Node>, flags: Flags, legible: bool, content: Content) {
    && Apart(nodes, C, true)
    && (CellDecodes(nodes, flags) <==> legible)
    && HeardContent(nodes, flags) == content
  }

  predicate NodeReads(node: Node, flags: Flags, legible: bool, content: Content) {
    && NodeApart(node, C, true)
    && (NodeCellDecodes(node, flags) <==> legible)
    && NodeHeardContent(node, flags) == content
  }

  lemma ReadsNothing(flags: Flags)
    ensures Reads([], flags, true, NOTHING)
  {
  }

  lemma ReadsCons(
    node: Node, rest: seq<Node>, flags: Flags, legible: bool, content: Content, more: bool,
    moreContent: Content)
    requires NodeReads(node, flags, legible, content) && NodeFlagsAfter(node, flags) == flags
    requires Reads(rest, flags, more, moreContent)
    ensures Reads([node] + rest, flags, legible && more, Together(content, moreContent))
  {
    hide ValidFrom, NodeApart, NodeCellDecodes, NodeHeard, NodeHeardInline, NodeCount, NodeFlagAfter;
    ConsNode(node, rest);
  }

  lemma ReadsOne(node: Node, flags: Flags, legible: bool, content: Content)
    requires NodeReads(node, flags, legible, content)
    ensures Reads([node], flags, legible, content)
  {
    hide ValidFrom, NodeApart, NodeCellDecodes, NodeHeard, NodeHeardInline, NodeCount, NodeFlagAfter;
    var after := NodeFlagsAfter(node, flags);
    assert [node][1..] == [] && HeardInline([], after) == NO_TEXT == Heard([], RAW_RULE, after.value);
    OneNode(node, C, true);
    OneNode(node, FORMULA, true);
    PushNothing(content.raw);
    PushNothing(content.inline);
    assert CellDecodes([node], flags) <==> legible;
    assert Heard([node], RAW_RULE, flags.value) == content.raw;
    assert HeardInline([node], flags) == content.inline;
  }

  lemma FlagsNeverRise(node: Node)
    ensures NodeFlagsAfter(node, NO_FLAGS) == NO_FLAGS
  {
    NodeFlagNeverRises(node, V);
    NodeFlagNeverRises(node, T);
  }

  /** Where text goes: to the value if one is open, and else to the inline text if a text element is. */
  function Going(text: Text, flags: Flags): Content {
    if flags.value then NOTHING.(raw := text)
    else if flags.text then NOTHING.(inline := text)
    else NOTHING
  }

  lemma LeafReads(part: Part, flags: Flags)
    ensures var node := Leaf(EventOf(part));
            && NodeReads(node, flags, !(flags.value || flags.text) || Legible(part),
                         Going(Meaning(part), flags))
            && NodeFlagsAfter(node, flags) == flags
  {
    hide ValidFrom, Meaning, Legible, TextOf;
    PartIsRead(part);
  }

  lemma {:induction false} LeavesRead(parts: seq<Part>, flags: Flags)
    ensures Reads(Leaves(parts), flags, !(flags.value || flags.text) || AllLegible(parts),
                  Going(Spelled(parts), flags))
    decreases |parts|
  {
    hide ValidFrom, Reads, NodeReads, Meaning, Legible;
    if parts == [] {
      ReadsNothing(flags);
    } else {
      LeavesRead(parts[1..], flags);
      LeafReads(parts[0], flags);
      LegibleCons(parts);
      GoingTogether(Meaning(parts[0]), Spelled(parts[1..]), flags);
      ReadsCons(Leaf(EventOf(parts[0])), Leaves(parts[1..]), flags,
                !(flags.value || flags.text) || Legible(parts[0]), Going(Meaning(parts[0]), flags),
                !(flags.value || flags.text) || AllLegible(parts[1..]),
                Going(Spelled(parts[1..]), flags));
    }
  }

  lemma GoingTogether(a: Text, b: Text, flags: Flags)
    ensures Together(Going(a, flags), Going(b, flags)) == Going(Push(a, b), flags)
  {
    hide ValidFrom;
    PushNothing(NO_TEXT);
  }

  /** The element around a forest that is read. */
  lemma AroundReads(
    name: Name, head: Head, children: seq<Node>, flags: Flags, legible: bool, content: Content)
    requires name != C && Reads(children, Inside(flags, name), legible, content)
    ensures NodeReads(Element(name, head, children), flags, legible,
                      content.(hasFormula := content.hasFormula || name == F))
  {
    hide ValidFrom, Apart, CellDecodes, Heard, HeardInline, Count;
  }

  lemma {:induction false} PartReads(part: CellPart, depth: nat)
    requires PartPlaced(part, depth)
    ensures NodeReads(PartNode(part), NO_FLAGS, PartLegible(part), ContentOfPart(part))
    decreases part
  {
    hide ValidFrom, Reads, NodeReads, Meaning, Legible, HeadFault;
    match part {
      case Value(head, parts) =>
        LeavesRead(parts, Flags(true, false));
        AroundReads(V, head, Leaves(parts), NO_FLAGS, AllLegible(parts), ContentOfPart(part));
      case InlineText(head, parts) =>
        LeavesRead(parts, Flags(false, true));
        AroundReads(T, head, Leaves(parts), NO_FLAGS, AllLegible(parts), ContentOfPart(part));
      case TextInValue(head, inner, parts) =>
        LeavesRead(parts, Flags(true, true));
        TwoAround(V, head, T, inner, parts);
      case ValueInText(head, inner, parts) =>
        LeavesRead(parts, Flags(true, true));
        TwoAround(T, head, V, inner, parts);
      case Formula(head, parts) =>
        LeavesRead(parts, NO_FLAGS);
        AroundReads(F, head, Leaves(parts), NO_FLAGS, true, NOTHING);
      case LoosePart(loose) =>
        LeafReads(loose, NO_FLAGS);
      case VoidPart(name, head) =>
        VoidReads(name, head);
      case Wrapped(name, head, inside) =>
        PartsRead(inside, depth + 1);
        AroundReads(name, head, PartNodes(inside), NO_FLAGS, PartsLegible(inside),
                    ContentOfParts(inside));
    }
  }

  lemma VoidReads(name: Name, head: Head)
    ensures NodeReads(Leaf(Empty(name, head)), NO_FLAGS, true, NOTHING)
  {
    hide ValidFrom;
  }

  /** Where a value and a text element are open, in whatever order, text goes to the value. */
  lemma TwoAround(name: Name, head: Head, within: Name, inner: Head, parts: seq<Part>)
    requires (name == V && within == T) || (name == T && within == V)
    ensures NodeReads(Element(name, head, [Element(within, inner, Leaves(parts))]), NO_FLAGS,
                      AllLegible(parts), NOTHING.(raw := Spelled(parts)))
  {
    hide ValidFrom, Reads, NodeReads, Meaning, Legible;
    var node, content := Element(within, inner, Leaves(parts)), NOTHING.(raw := Spelled(parts));
    var flags := Inside(NO_FLAGS, name);
    assert Inside(flags, within) == Flags(true, true);
    LeavesRead(parts, Flags(true, true));
    AroundReads(within, inner, Leaves(parts), flags, AllLegible(parts), content);
    ReadsOne(node, flags, AllLegible(parts), content);
    AroundReads(name, head, [node], NO_FLAGS, AllLegible(parts), content);
  }

  /** What a cell gathers is the content that was written in it. */
  lemma {:induction false} PartsRead(parts: seq<CellPart>, depth: nat)
    requires PartsPlaced(parts, depth)
    ensures Reads(PartNodes(parts), NO_FLAGS, PartsLegible(parts), ContentOfParts(parts))
    decreases parts
  {
    hide ValidFrom, Reads, NodeReads, PartNode, ContentOfPart, PartLegible, PartPlaced, Together;
    if parts == [] {
      ReadsNothing(NO_FLAGS);
    } else {
      PartReads(parts[0], depth);
      FlagsNeverRise(PartNode(parts[0]));
      PartsRead(parts[1..], depth);
      ReadsCons(PartNode(parts[0]), PartNodes(parts[1..]), NO_FLAGS, PartLegible(parts[0]),
                ContentOfPart(parts[0]), PartsLegible(parts[1..]), ContentOfParts(parts[1..]));
    }
  }

  lemma {:induction false} PartsAreAcceptable(parts: seq<CellPart>, depth: nat)
    requires PartsPlaced(parts, depth)
    ensures Acceptable(PartNodes(parts), depth)
    decreases parts
  {
    hide HeadFault;
    if parts != [] {
      PartsAreAcceptable(parts[1..], depth);
      ConsNode(PartNode(parts[0]), PartNodes(parts[1..]));
      PartIsAcceptable(parts[0], depth);
    }
  }

  lemma {:induction false} PartIsAcceptable(part: CellPart, depth: nat)
    requires PartPlaced(part, depth)
    ensures Acceptable([PartNode(part)], depth)
    decreases part
  {
    hide HeadFault;
    assert [PartNode(part)][1..] == [];
    match part {
      case Value(_, parts) => LeavesAreAcceptable(parts, depth + 1);
      case InlineText(_, parts) => LeavesAreAcceptable(parts, depth + 1);
      case TextInValue(_, inner, parts) =>
        LeavesAreAcceptable(parts, depth + 2);
        assert [Element(T, inner, Leaves(parts))][1..] == [];
        assert Acceptable([Element(T, inner, Leaves(parts))], depth + 1);
      case ValueInText(_, inner, parts) =>
        LeavesAreAcceptable(parts, depth + 2);
        assert [Element(V, inner, Leaves(parts))][1..] == [];
        assert Acceptable([Element(V, inner, Leaves(parts))], depth + 1);
      case Formula(_, parts) => LeavesAreAcceptable(parts, depth + 1);
      case LoosePart(_) =>
      case VoidPart(_, _) =>
      case Wrapped(_, _, inside) => PartsAreAcceptable(inside, depth + 1);
    }
  }

  /** Cells among whatever else there is in a worksheet. */
  datatype SheetBlock =
    | CellBlock(head: Head, parts: seq<CellPart>)
    | OtherBlock(name: Name, head: Head, blocks: seq<SheetBlock>)
    | BlankBlock(part: Part)
    | BareBlock(name: Name, head: Head)
    | DeclarationBlock(valid: bool)

  function BlockNode(block: SheetBlock): Node {
    match block
    case CellBlock(head, parts) => Element(C, head, PartNodes(parts))
    case OtherBlock(name, head, blocks) => Element(name, head, SheetTree(blocks))
    case BlankBlock(part) => Leaf(EventOf(part))
    case BareBlock(name, head) => Leaf(Empty(name, head))
    case DeclarationBlock(valid) => Leaf(Decl(valid))
  }

  function SheetTree(blocks: seq<SheetBlock>): seq<Node> {
    if blocks == [] then [] else [BlockNode(blocks[0])] + SheetTree(blocks[1..])
  }

  predicate BlockPlaced(block: SheetBlock, depth: nat) {
    match block
    case CellBlock(head, parts) =>
      HeadFault(head).None? && depth < 128 && PartsPlaced(parts, depth + 1)
    case OtherBlock(name, head, blocks) =>
      && HeadFault(head).None? && name.namespace != Undeclared && name != C
      && depth < 128 && SheetPlaced(blocks, depth + 1)
    case BlankBlock(part) => FitsGuard(part)
    case BareBlock(name, head) => HeadFault(head).None? && name.namespace != Undeclared
    case DeclarationBlock(_) => true
  }

  predicate SheetPlaced(blocks: seq<SheetBlock>, depth: nat) {
    blocks == [] || (BlockPlaced(blocks[0], depth) && SheetPlaced(blocks[1..], depth))
  }

  predicate BlockLegible(block: SheetBlock) {
    match block
    case CellBlock(_, parts) => PartsLegible(parts)
    case OtherBlock(_, _, blocks) => SheetLegible(blocks)
    case DeclarationBlock(valid) => valid
    case _ => true
  }

  predicate SheetLegible(blocks: seq<SheetBlock>) {
    blocks == [] || (BlockLegible(blocks[0]) && SheetLegible(blocks[1..]))
  }

  function CellsIn(block: SheetBlock): nat {
    match block
    case CellBlock(_, _) => 1
    case OtherBlock(_, _, blocks) => CellsOf(blocks)
    case _ => 0
  }

  function CellsOf(blocks: seq<SheetBlock>): nat {
    if blocks == [] then 0 else CellsIn(blocks[0]) + CellsOf(blocks[1..])
  }

  /** What the cells contribute, in the order in which they are written. */
  ghost predicate BlockShows(
    block: SheetBlock, sheetNumber: nat, shared: seq<Text>, marks: seq<Marked>)
  {
    match block
    case CellBlock(head, parts) =>
      Contributes(head, ContentOfParts(parts), sheetNumber, shared, marks)
    case OtherBlock(_, _, blocks) => SheetShows(blocks, sheetNumber, shared, marks)
    case _ => marks == []
  }

  ghost predicate SheetShows(
    blocks: seq<SheetBlock>, sheetNumber: nat, shared: seq<Text>, marks: seq<Marked>)
  {
    if blocks == [] then marks == []
    else
      exists k :: 0 <= k <= |marks| && BlockShows(blocks[0], sheetNumber, shared, marks[..k])
                  && SheetShows(blocks[1..], sheetNumber, shared, marks[k..])
  }

  predicate TreeReads(nodes: seq<Node>, legible: bool, cells: nat) {
    Apart(nodes, C, false) && Count(nodes, C) == cells && (SheetDecodes(nodes) <==> legible)
  }

  predicate NodeInTree(node: Node, legible: bool, cells: nat) {
    NodeApart(node, C, false) && NodeCount(node, C) == cells && (NodeSheetDecodes(node) <==> legible)
  }

  lemma TreeCons(
    node: Node, rest: seq<Node>, legible: bool, cells: nat, more: bool, moreCells: nat)
    requires NodeInTree(node, legible, cells) && TreeReads(rest, more, moreCells)
    ensures TreeReads([node] + rest, legible && more, cells + moreCells)
  {
    hide NodeApart, NodeCount, NodeSheetDecodes;
    ConsNode(node, rest);
  }

  lemma {:induction false} SheetReads(blocks: seq<SheetBlock>, depth: nat)
    requires SheetPlaced(blocks, depth)
    ensures TreeReads(SheetTree(blocks), SheetLegible(blocks), CellsOf(blocks))
    decreases blocks
  {
    hide ValidFrom, BlockPlaced, BlockNode, BlockLegible, CellsIn, NodeInTree;
    if blocks != [] {
      BlockReads(blocks[0], depth);
      SheetReads(blocks[1..], depth);
      hide TreeReads;
      TreeCons(BlockNode(blocks[0]), SheetTree(blocks[1..]), BlockLegible(blocks[0]),
               CellsIn(blocks[0]), SheetLegible(blocks[1..]), CellsOf(blocks[1..]));
    }
  }

  lemma {:induction false} BlockReads(block: SheetBlock, depth: nat)
    requires BlockPlaced(block, depth)
    ensures NodeInTree(BlockNode(block), BlockLegible(block), CellsIn(block))
    decreases block
  {
    hide ValidFrom, HeadFault, HeardContent;
    match block {
      case CellBlock(head, parts) =>
        PartsRead(parts, depth + 1);
        NoneInside(PartNodes(parts), C);
      case OtherBlock(name, head, blocks) =>
        SheetReads(blocks, depth + 1);
      case BlankBlock(part) =>
      case BareBlock(name, head) =>
      case DeclarationBlock(valid) =>
    }
  }

  lemma {:induction false} SheetShowsIff(
    blocks: seq<SheetBlock>, depth: nat, sheetNumber: nat, shared: seq<Text>, marks: seq<Marked>)
    requires SheetPlaced(blocks, depth)
    ensures SheetContributes(SheetTree(blocks), sheetNumber, shared, marks)
            <==> SheetShows(blocks, sheetNumber, shared, marks)
    decreases blocks
  {
    hide NodeContributes, BlockShows, BlockNode, BlockPlaced;
    if blocks != [] {
      ConsNode(BlockNode(blocks[0]), SheetTree(blocks[1..]));
      forall k | 0 <= k <= |marks|
        ensures NodeContributes(BlockNode(blocks[0]), sheetNumber, shared, marks[..k])
                <==> BlockShows(blocks[0], sheetNumber, shared, marks[..k])
        ensures SheetContributes(SheetTree(blocks[1..]), sheetNumber, shared, marks[k..])
                <==> SheetShows(blocks[1..], sheetNumber, shared, marks[k..])
      {
        BlockShowsIff(blocks[0], depth, sheetNumber, shared, marks[..k]);
        SheetShowsIff(blocks[1..], depth, sheetNumber, shared, marks[k..]);
      }
    }
  }

  lemma {:induction false} BlockShowsIff(
    block: SheetBlock, depth: nat, sheetNumber: nat, shared: seq<Text>, marks: seq<Marked>)
    requires BlockPlaced(block, depth)
    ensures NodeContributes(BlockNode(block), sheetNumber, shared, marks)
            <==> BlockShows(block, sheetNumber, shared, marks)
    decreases block
  {
    hide Contributes, HeadFault, HeardContent;
    match block {
      case CellBlock(head, parts) => PartsRead(parts, depth + 1);
      case OtherBlock(name, head, blocks) =>
        SheetShowsIff(blocks, depth + 1, sheetNumber, shared, marks);
      case BlankBlock(part) =>
      case BareBlock(name, head) =>
      case DeclarationBlock(valid) =>
    }
  }

  lemma {:induction false} SheetIsAcceptable(blocks: seq<SheetBlock>, depth: nat)
    requires SheetPlaced(blocks, depth)
    ensures Acceptable(SheetTree(blocks), depth)
    decreases blocks
  {
    hide HeadFault;
    if blocks != [] {
      SheetIsAcceptable(blocks[1..], depth);
      ConsNode(BlockNode(blocks[0]), SheetTree(blocks[1..]));
      match blocks[0] {
        case CellBlock(_, parts) => PartsAreAcceptable(parts, depth + 1);
        case OtherBlock(_, _, inner) => SheetIsAcceptable(inner, depth + 1);
        case _ =>
      }
    }
  }

  lemma SheetIsReadable(blocks: seq<SheetBlock>)
    requires SheetPlaced(blocks, 0) && |Flatten(SheetTree(blocks))| < 1_000_000
    ensures Readable(SheetTree(blocks))
  {
    hide SheetPlaced, Flatten, Acceptable;
    SheetIsAcceptable(blocks, 0);
  }

  /** Round trip: whatever stands around its cells, a worksheet is taken exactly when everything in its
      values and text elements is legible, there are not too many cells, and every cell contributes; it then
      yields the fragments of what the cells contribute as they were written. */
  lemma SheetIsRead(blocks: seq<SheetBlock>, limits: Limits, sheetNumber: nat, shared: seq<Text>)
    requires limits.Valid() && SheetPlaced(blocks, 0)
    requires |Flatten(SheetTree(blocks))| < 1_000_000
    ensures var plan := SheetPlan(Flatten(SheetTree(blocks)), limits, sheetNumber, shared);
            && (RejectsNothing(plan)
                <==> && SheetLegible(blocks) && CellsOf(blocks) <= 100_000
                     && exists marks :: SheetShows(blocks, sheetNumber, shared, marks))
            && forall marks ::
                 RejectsNothing(plan) && SheetShows(blocks, sheetNumber, shared, marks) ==>
                   AllText(marks) && PiecesOf(plan) == Fragments(marks, limits)
  {
    hide ValidFrom, Flatten, RejectsNothing, PiecesOf, Fragments, SheetPlan, SheetShows, SheetContributes,
         SheetLegible, CellsOf, SheetTree, SheetPlaced, Apart, Count, SheetDecodes;
    SheetIsReadable(blocks);
    SheetReads(blocks, 0);
    SheetMeansIff(SheetTree(blocks), limits, sheetNumber, shared);
    forall marks
      ensures SheetContributes(SheetTree(blocks), sheetNumber, shared, marks)
              <==> SheetShows(blocks, sheetNumber, shared, marks)
    {
      SheetShowsIff(blocks, 0, sheetNumber, shared, marks);
    }
    if marks :| SheetContributes(SheetTree(blocks), sheetNumber, shared, marks) {
      assert SheetShows(blocks, sheetNumber, shared, marks);
    }
    if marks :| SheetShows(blocks, sheetNumber, shared, marks) {
      assert SheetContributes(SheetTree(blocks), sheetNumber, shared, marks);
    }
  }
}
