/**
 Text as it is written into the parts of an archive: in characters, in CDATA sections and as references,
 in text elements that stand among other things inside any other elements. What a parser gathers of it is
 the text that was written.
 */
module Spelling {
  import opened Wrappers
  import opened Utf8
  import opened Xml
  import opened Gathering

  /** A stretch of text in a text element; `text` is None when it does not decode. */
  datatype Part =
    | Typed(rawBytes: nat, text: Option<Text>)
    | Section(rawBytes: nat, text: Option<Text>)
    | Entity(name: string)
    | Numbered(c: Scalar)
    | BadPart

  const ENTITIES: map<string, byte> :=
    map["amp" := 0x26, "lt" := 0x3C, "gt" := 0x3E, "apos" := 0x27, "quot" := 0x22]

  /** All characters but the control characters, three of them excepted, and two that are none. */
  predicate Allowed(c: Scalar) {
    c in {0x09, 0x0A, 0x0D} || (c >= 0x20 && c !in {0xFFFE, 0xFFFF})
  }

  predicate Legible(part: Part) {
    match part
    case Typed(_, text) => text.Some?
    case Section(_, text) => text.Some?
    case Entity(name) => name in ENTITIES
    case Numbered(c) => Allowed(c)
    case BadPart => false
  }

  lemma EntitiesAreText(name: string)
    requires name in ENTITIES
    ensures Valid([ENTITIES[name]])
  {
    var s := [ENTITIES[name]];
    assert ENTITIES[name] < 0x80;
    assert WidthAt(s, 0) == 1 && ValidFrom(s, 1);
  }

  /** The text a part stands for; none when it is not legible. */
  function Meaning(part: Part): Text {
    match part
    case Typed(_, text) => if text.Some? then text.value else NO_TEXT
    case Section(_, text) => if text.Some? then text.value else NO_TEXT
    case Entity(name) =>
      if name !in ENTITIES then NO_TEXT
      else
        EntitiesAreText(name);
        [ENTITIES[name]]
    case Numbered(c) =>
      if !Allowed(c) then NO_TEXT
      else
        EncodeValid(c);
        Encode(c)
    case BadPart => NO_TEXT
  }

  function EventOf(part: Part): Event {
    match part
    case Typed(rawBytes, text) => Characters(rawBytes, text)
    case Section(rawBytes, text) => CData(rawBytes, text)
    case Entity(name) => GeneralRef(EntityReference(name))
    case Numbered(c) => GeneralRef(CharacterReference(c))
    case BadPart => GeneralRef(BadReference)
  }

  /** What a parser makes of a part. */
  lemma PartIsRead(part: Part)
    ensures CarriesText(EventOf(part))
    ensures TextOf(EventOf(part)) == if Legible(part) then Some(Meaning(part)) else None
    ensures !Legible(part) ==> Meaning(part) == NO_TEXT
  {
    hide ValidFrom;
    if part.Entity? && part.name in ENTITIES {
      assert part.name == "amp" || part.name == "lt" || part.name == "gt" || part.name == "apos"
             || part.name == "quot";
      assert CharacterText(ENTITIES[part.name] as nat) == [ENTITIES[part.name]];
    }
  }

  predicate AllLegible(parts: seq<Part>) {
    forall k :: 0 <= k < |parts| ==> Legible(parts[k])
  }

  function Spelled(parts: seq<Part>): Text {
    if parts == [] then NO_TEXT else Push(Meaning(parts[0]), Spelled(parts[1..]))
  }

  function Leaves(parts: seq<Part>): seq<Node> {
    if parts == [] then [] else [Leaf(EventOf(parts[0]))] + Leaves(parts[1..])
  }

  /** The guard lets the part through. */
  predicate FitsGuard(part: Part) {
    (part.Typed? || part.Section?) ==> part.rawBytes <= 256 * 1024
  }

  predicate AllFit(parts: seq<Part>) {
    forall k :: 0 <= k < |parts| ==> FitsGuard(parts[k])
  }

  lemma {:induction false} LeavesAreAcceptable(parts: seq<Part>, depth: nat)
    requires AllFit(parts)
    ensures Acceptable(Leaves(parts), depth)
    decreases |parts|
  {
    if parts != [] {
      LeavesAreAcceptable(parts[1..], depth);
      ConsNode(Leaf(EventOf(parts[0])), Leaves(parts[1..]));
    }
  }

  lemma ConsNode(node: Node, rest: seq<Node>)
    ensures ([node] + rest)[0] == node && ([node] + rest)[1..] == rest
  {
  }

  // What stands in a unit: paragraphs and items gather the text of text elements, whatever stands around
  // and between these.

  datatype Inline =
    | Run(head: Head, parts: seq<Part>)
    | Tab(head: Head)
    | Break(head: Head)
    | Loose(part: Part)
    | Void(name: Name, head: Head)
    | Around(name: Name, head: Head, inner: seq<Inline>)

  function InlineNode(inline: Inline, text: Name): Node {
    match inline
    case Run(head, parts) => Element(text, head, Leaves(parts))
    case Tab(head) => Leaf(Empty(Name(Wordprocessing, "tab"), head))
    case Break(head) => Leaf(Empty(Name(Wordprocessing, "br"), head))
    case Loose(part) => Leaf(EventOf(part))
    case Void(name, head) => Leaf(Empty(name, head))
    case Around(name, head, inner) => Element(name, head, InlineNodes(inner, text))
  }

  function InlineNodes(inlines: seq<Inline>, text: Name): seq<Node> {
    if inlines == [] then [] else [InlineNode(inlines[0], text)] + InlineNodes(inlines[1..], text)
  }

  /** What surrounds the text is none of what counts, and the guard lets everything through. */
  predicate Placed(inline: Inline, text: Name, unit: Name, depth: nat) {
    match inline
    case Run(head, parts) => HeadFault(head).None? && depth < 128 && AllFit(parts)
    case Tab(head) => HeadFault(head).None?
    case Break(head) => HeadFault(head).None?
    case Loose(part) => FitsGuard(part)
    case Void(name, head) =>
      && HeadFault(head).None? && name.namespace != Undeclared
      && name != Name(Wordprocessing, "tab") && name != Name(Wordprocessing, "br")
    case Around(name, head, inner) =>
      && HeadFault(head).None? && name.namespace != Undeclared && name != text && name != unit
      && depth < 128 && AllPlaced(inner, text, unit, depth + 1)
  }

  predicate AllPlaced(inlines: seq<Inline>, text: Name, unit: Name, depth: nat) {
    inlines == []
    || (Placed(inlines[0], text, unit, depth) && AllPlaced(inlines[1..], text, unit, depth))
  }

  predicate InlineLegible(inline: Inline) {
    match inline
    case Run(_, parts) => AllLegible(parts)
    case Around(_, _, inner) => InlinesLegible(inner)
    case _ => true
  }

  predicate InlinesLegible(inlines: seq<Inline>) {
    inlines == [] || (InlineLegible(inlines[0]) && InlinesLegible(inlines[1..]))
  }

  /** The text of a unit: that of its text elements, and tabs and line breaks where they count. */
  function InlineText(inline: Inline, breaks: bool): Text {
    match inline
    case Run(_, parts) => Spelled(parts)
    case Tab(_) => if breaks then Control(0x09) else NO_TEXT
    case Break(_) => if breaks then Control(0x0A) else NO_TEXT
    case Loose(_) => NO_TEXT
    case Void(_, _) => NO_TEXT
    case Around(_, _, inner) => InlineTexts(inner, breaks)
  }

  function InlineTexts(inlines: seq<Inline>, breaks: bool): Text {
    if inlines == [] then NO_TEXT
    else Push(InlineText(inlines[0], breaks), InlineTexts(inlines[1..], breaks))
  }

  function Control(b: byte): (s: Text)
    requires b < 0x80
    ensures s == [b]
  {
    assert WidthAt([b], 0) == 1 && ValidFrom([b], 1);
    [b]
  }

  /** A forest gathers a text when it is legible, with the flag down before and after, and has no unit in
      it. */
  predicate Reads(nodes: seq<Node>, rule: Rule, unit: Name, flag: bool, legible: bool, text: Text) {
    && Apart(nodes, unit, true)
    && (Decodes(nodes, rule.text, flag) <==> legible)
    && Heard(nodes, rule, flag) == text
  }

  predicate NodeReads(node: Node, rule: Rule, unit: Name, flag: bool, legible: bool, text: Text) {
    && NodeApart(node, unit, true)
    && (NodeDecodes(node, rule.text, flag) <==> legible)
    && NodeHeard(node, rule, flag) == text
  }

  lemma ReadsNothing(rule: Rule, unit: Name, flag: bool)
    ensures Reads([], rule, unit, flag, true, NO_TEXT)
  {
  }

  lemma ReadsCons(
    node: Node, rest: seq<Node>, rule: Rule, unit: Name, flag: bool, legible: bool, text: Text,
    more: bool, moreText: Text)
    requires NodeReads(node, rule, unit, flag, legible, text)
    requires NodeFlagAfter(node, rule.text, flag) == flag
    requires Reads(rest, rule, unit, flag, more, moreText)
    ensures Reads([node] + rest, rule, unit, flag, legible && more, Push(text, moreText))
  {
    hide ValidFrom, NodeApart, NodeDecodes, NodeHeard;
    ConsNode(node, rest);
  }

  lemma {:induction false} LeavesRead(parts: seq<Part>, rule: Rule, unit: Name)
    ensures Reads(Leaves(parts), rule, unit, true, AllLegible(parts), Spelled(parts))
    decreases |parts|
  {
    hide ValidFrom, Reads, Meaning, Legible, Heard, Decodes, Apart;
    if parts == [] {
      ReadsNothing(rule, unit, true);
    } else {
      LeavesRead(parts[1..], rule, unit);
      LeafReads(parts[0], rule, unit, true);
      LegibleCons(parts);
      ReadsCons(Leaf(EventOf(parts[0])), Leaves(parts[1..]), rule, unit, true, Legible(parts[0]),
                Meaning(parts[0]), AllLegible(parts[1..]), Spelled(parts[1..]));
    }
  }

  lemma LegibleCons(parts: seq<Part>)
    requires parts != []
    ensures AllLegible(parts) <==> Legible(parts[0]) && AllLegible(parts[1..])
  {
    assert parts == [parts[0]] + parts[1..];
  }

  lemma LeafReads(part: Part, rule: Rule, unit: Name, flag: bool)
    ensures var node := Leaf(EventOf(part));
            && NodeReads(node, rule, unit, flag, !flag || Legible(part),
                         if flag then Meaning(part) else NO_TEXT)
            && NodeFlagAfter(node, rule.text, flag) == flag
  {
    hide ValidFrom, Meaning, Legible, TextOf;
    PartIsRead(part);
  }

  /** The element around a forest that is read. */
  lemma AroundReads(
    name: Name, head: Head, children: seq<Node>, rule: Rule, unit: Name, legible: bool, text: Text)
    requires name != unit && Reads(children, rule, unit, name == rule.text, legible, text)
    ensures var node := Element(name, head, children);
            && NodeReads(node, rule, unit, false, legible, text)
            && NodeFlagAfter(node, rule.text, false) == false
  {
    hide ValidFrom, Apart, Decodes, Heard;
    FlagNeverRises(children, rule.text);
  }

  lemma VoidReads(name: Name, head: Head, rule: Rule, unit: Name)
    ensures var node := Leaf(Empty(name, head));
            && NodeReads(node, rule, unit, false, true,
                         if rule.breaks && name == Name(Wordprocessing, "tab") then Control(0x09)
                         else if rule.breaks && name == Name(Wordprocessing, "br") then Control(0x0A)
                         else NO_TEXT)
            && NodeFlagAfter(node, rule.text, false) == false
  {
    hide ValidFrom;
    assert "tab" != "br" by {
      assert |"tab"| != |"br"|;
    }
  }

  lemma {:induction false} InlineReads(
    inline: Inline, rule: Rule, text: Name, unit: Name, depth: nat)
    requires rule.text == text && text != unit && Placed(inline, text, unit, depth)
    ensures var node := InlineNode(inline, text);
            && NodeReads(node, rule, unit, false, InlineLegible(inline),
                         InlineText(inline, rule.breaks))
            && NodeFlagAfter(node, text, false) == false
    decreases inline
  {
    hide ValidFrom, Reads, NodeReads, Meaning, Legible, NodeFlagAfter, HeadFault;
    match inline {
      case Run(head, parts) =>
        LeavesRead(parts, rule, unit);
        AroundReads(text, head, Leaves(parts), rule, unit, AllLegible(parts), Spelled(parts));
      case Tab(head) => VoidReads(Name(Wordprocessing, "tab"), head, rule, unit);
      case Break(head) => VoidReads(Name(Wordprocessing, "br"), head, rule, unit);
      case Loose(part) => LeafReads(part, rule, unit, false);
      case Void(name, head) => VoidReads(name, head, rule, unit);
      case Around(name, head, inner) =>
        InlinesRead(inner, rule, text, unit, depth + 1);
        AroundReads(name, head, InlineNodes(inner, text), rule, unit, InlinesLegible(inner),
                    InlineTexts(inner, rule.breaks));
    }
  }

  /** What a unit gathers is the text that was written in it. */
  lemma {:induction false} InlinesRead(
    inlines: seq<Inline>, rule: Rule, text: Name, unit: Name, depth: nat)
    requires rule.text == text && text != unit && AllPlaced(inlines, text, unit, depth)
    ensures Reads(InlineNodes(inlines, text), rule, unit, false, InlinesLegible(inlines),
                  InlineTexts(inlines, rule.breaks))
    decreases inlines
  {
    hide ValidFrom, Reads, NodeReads, InlineNode, InlineText, InlineLegible, NodeFlagAfter, Placed;
    if inlines == [] {
      ReadsNothing(rule, unit, false);
    } else {
      InlineReads(inlines[0], rule, text, unit, depth);
      InlinesRead(inlines[1..], rule, text, unit, depth);
      ReadsCons(InlineNode(inlines[0], text), InlineNodes(inlines[1..], text), rule, unit, false,
                InlineLegible(inlines[0]), InlineText(inlines[0], rule.breaks),
                InlinesLegible(inlines[1..]), InlineTexts(inlines[1..], rule.breaks));
    }
  }

  lemma {:induction false} InlinesAreAcceptable(
    inlines: seq<Inline>, text: Name, unit: Name, depth: nat)
    requires text.namespace != Undeclared && AllPlaced(inlines, text, unit, depth)
    ensures Acceptable(InlineNodes(inlines, text), depth)
    decreases inlines
  {
    hide HeadFault;
    if inlines != [] {
      InlinesAreAcceptable(inlines[1..], text, unit, depth);
      ConsNode(InlineNode(inlines[0], text), InlineNodes(inlines[1..], text));
      match inlines[0] {
        case Run(_, parts) => LeavesAreAcceptable(parts, depth + 1);
        case Around(_, _, inner) => InlinesAreAcceptable(inner, text, unit, depth + 1);
        case _ =>
      }
    }
  }

  // Units among whatever else there is in a part.

  datatype Block =
    | Entry(head: Head, content: seq<Inline>)
    | Other(name: Name, head: Head, blocks: seq<Block>)
    | Blank(part: Part)
    | Bare(name: Name, head: Head)
    | Declaration(valid: bool)

  function BlockNode(block: Block, text: Name, unit: Name): Node {
    match block
    case Entry(head, content) => Element(unit, head, InlineNodes(content, text))
    case Other(name, head, blocks) => Element(name, head, BlockNodes(blocks, text, unit))
    case Blank(part) => Leaf(EventOf(part))
    case Bare(name, head) => Leaf(Empty(name, head))
    case Declaration(valid) => Leaf(Decl(valid))
  }

  function BlockNodes(blocks: seq<Block>, text: Name, unit: Name): seq<Node> {
    if blocks == [] then []
    else [BlockNode(blocks[0], text, unit)] + BlockNodes(blocks[1..], text, unit)
  }

  predicate BlockPlaced(block: Block, text: Name, unit: Name, depth: nat) {
    match block
    case Entry(head, content) =>
      HeadFault(head).None? && depth < 128 && AllPlaced(content, text, unit, depth + 1)
    case Other(name, head, blocks) =>
      && HeadFault(head).None? && name.namespace != Undeclared && name != text && name != unit
      && depth < 128 && BlocksPlaced(blocks, text, unit, depth + 1)
    case Blank(part) => FitsGuard(part)
    case Bare(name, head) => HeadFault(head).None? && name.namespace != Undeclared
    case Declaration(_) => true
  }

  predicate BlocksPlaced(blocks: seq<Block>, text: Name, unit: Name, depth: nat) {
    blocks == []
    || (BlockPlaced(blocks[0], text, unit, depth) && BlocksPlaced(blocks[1..], text, unit, depth))
  }

  /** Everything in text elements is legible, and declarations are valid. */
  predicate BlockLegible(block: Block) {
    match block
    case Entry(_, content) => InlinesLegible(content)
    case Other(_, _, blocks) => BlocksLegible(blocks)
    case Declaration(valid) => valid
    case _ => true
  }

  predicate BlocksLegible(blocks: seq<Block>) {
    blocks == [] || (BlockLegible(blocks[0]) && BlocksLegible(blocks[1..]))
  }

  /** The texts of the units, in the order in which they are written. */
  function BlockTexts(block: Block, breaks: bool): seq<Text> {
    match block
    case Entry(_, content) => [InlineTexts(content, breaks)]
    case Other(_, _, blocks) => BlocksTexts(blocks, breaks)
    case _ => []
  }

  function BlocksTexts(blocks: seq<Block>, breaks: bool): seq<Text> {
    if blocks == [] then []
    else BlockTexts(blocks[0], breaks) + BlocksTexts(blocks[1..], breaks)
  }

  lemma {:induction false} BlocksAreAcceptable(
    blocks: seq<Block>, text: Name, unit: Name, depth: nat)
    requires text.namespace != Undeclared && unit.namespace != Undeclared
    requires BlocksPlaced(blocks, text, unit, depth)
    ensures Acceptable(BlockNodes(blocks, text, unit), depth)
    decreases blocks
  {
    hide HeadFault;
    if blocks != [] {
      BlocksAreAcceptable(blocks[1..], text, unit, depth);
      ConsNode(BlockNode(blocks[0], text, unit), BlockNodes(blocks[1..], text, unit));
      match blocks[0] {
        case Entry(_, content) => InlinesAreAcceptable(content, text, unit, depth + 1);
        case Other(_, _, inner) => BlocksAreAcceptable(inner, text, unit, depth + 1);
        case _ =>
      }
    }
  }
}
