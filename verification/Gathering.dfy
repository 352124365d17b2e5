/**
 What a parser gathers inside a unit. It keeps one flag for a text element, set by its start tag and
 cleared by its end tag, and gathers the text it meets while the flag is set. The tree says instead
 that text counts when it stands under a text element, at whatever depth. The two differ when a text
 element is inside another one: its end tag clears the flag of both.
 */
module Gathering {
  import opened Wrappers
  import opened Utf8
  import opened Xml

  const TAB_NAME := Name(Wordprocessing, "tab")
  const BREAK_NAME := Name(Wordprocessing, "br")
  const TAB: Text := CharacterText(0x09)
  const LINE_BREAK: Text := CharacterText(0x0A)

  /** The text element of a kind of unit, and whether tabs and breaks count wherever they stand. */
  datatype Rule = Rule(text: Name, breaks: bool)

  /** The text of a leaf, if it decodes. */
  function Plain(event: Event): Text {
    if CarriesText(event) && TextOf(event).Some? then TextOf(event).value else NO_TEXT
  }

  function BreakText(event: Event): Text {
    if event.Empty? && event.name == TAB_NAME then TAB
    else if event.Empty? && event.name == BREAK_NAME then LINE_BREAK
    else NO_TEXT
  }

  function LeafText(event: Event, rule: Rule, counts: bool): Text {
    if CarriesText(event) then if counts then Plain(event) else NO_TEXT
    else if rule.breaks then BreakText(event)
    else NO_TEXT
  }

  // The parser's view: a flag.

  /** The flag after a forest. */
  function FlagAfter(nodes: seq<Node>, text: Name, flag: bool): bool {
    if nodes == [] then flag else FlagAfter(nodes[1..], text, NodeFlagAfter(nodes[0], text, flag))
  }

  function NodeFlagAfter(node: Node, text: Name, flag: bool): bool {
    match node
    case Leaf(_) => flag
    case Element(name, _, children) => name != text && FlagAfter(children, text, flag)
  }

  /** The text of a forest that is met while the flag is set. */
  function Heard(nodes: seq<Node>, rule: Rule, flag: bool): Text {
    if nodes == [] then NO_TEXT
    else
      Push(NodeHeard(nodes[0], rule, flag),
           Heard(nodes[1..], rule, NodeFlagAfter(nodes[0], rule.text, flag)))
  }

  function NodeHeard(node: Node, rule: Rule, flag: bool): Text {
    match node
    case Leaf(event) => LeafText(event, rule, flag)
    case Element(name, _, children) => Heard(children, rule, flag || name == rule.text)
  }

  /** Everything that is decoded does decode, and declarations are valid. */
  predicate Decodes(nodes: seq<Node>, text: Name, flag: bool) {
    nodes == []
    || (NodeDecodes(nodes[0], text, flag)
        && Decodes(nodes[1..], text, NodeFlagAfter(nodes[0], text, flag)))
  }

  predicate NodeDecodes(node: Node, text: Name, flag: bool) {
    match node
    case Leaf(event) => LeafDecodes(event, flag)
    case Element(name, _, children) => Decodes(children, text, flag || name == text)
  }

  predicate LeafDecodes(event: Event, flag: bool) {
    && (event.Decl? ==> event.valid)
    && (flag && CarriesText(event) ==> TextOf(event).Some?)
  }

  // The tree's view: a scope.

  /** The text of a forest that stands under a text element. */
  function Under(nodes: seq<Node>, rule: Rule, inside: bool): Text {
    if nodes == [] then NO_TEXT
    else Push(NodeUnder(nodes[0], rule, inside), Under(nodes[1..], rule, inside))
  }

  function NodeUnder(node: Node, rule: Rule, inside: bool): Text {
    match node
    case Leaf(event) => LeafText(event, rule, inside)
    case Element(name, _, children) => Under(children, rule, inside || name == rule.text)
  }

  /** Nothing is lost: no text under a text element stands where the flag has been cleared. */
  predicate Kept(nodes: seq<Node>, text: Name, inside: bool, flag: bool) {
    nodes == []
    || (NodeKept(nodes[0], text, inside, flag)
        && Kept(nodes[1..], text, inside, NodeFlagAfter(nodes[0], text, flag)))
  }

  predicate NodeKept(node: Node, text: Name, inside: bool, flag: bool) {
    match node
    case Leaf(event) => inside && !flag ==> Plain(event) == NO_TEXT
    case Element(name, _, children) =>
      Kept(children, text, inside || name == text, flag || name == text)
  }

  /** A forest may clear the flag, but never leaves it set. */
  lemma {:induction false} FlagNeverRises(nodes: seq<Node>, text: Name)
    ensures !FlagAfter(nodes, text, false)
    decreases nodes
  {
    if nodes != [] {
      NodeFlagNeverRises(nodes[0], text);
      FlagNeverRises(nodes[1..], text);
    }
  }

  lemma {:induction false} NodeFlagNeverRises(node: Node, text: Name)
    ensures !NodeFlagAfter(node, text, false)
    decreases node
  {
    if node.Element? {
      FlagNeverRises(node.children, text);
    }
  }

  /** What is heard is never more than what stands under text elements, and it is all of that exactly
      when nothing is lost. */
  lemma {:induction false} HeardIsUnderIff(
    nodes: seq<Node>, rule: Rule, inside: bool, flag: bool)
    requires flag ==> inside
    ensures |Heard(nodes, rule, flag)| <= |Under(nodes, rule, inside)|
    ensures Kept(nodes, rule.text, inside, flag)
            <==> |Heard(nodes, rule, flag)| == |Under(nodes, rule, inside)|
    ensures Kept(nodes, rule.text, inside, flag)
            <==> Heard(nodes, rule, flag) == Under(nodes, rule, inside)
    decreases nodes
  {
    hide ValidFrom;
    if nodes != [] {
      NodeFlagNeverRises(nodes[0], rule.text);
      NodeHeardIsUnderIff(nodes[0], rule, inside, flag);
      HeardIsUnderIff(nodes[1..], rule, inside, NodeFlagAfter(nodes[0], rule.text, flag));
    }
  }

  lemma {:induction false} NodeHeardIsUnderIff(node: Node, rule: Rule, inside: bool, flag: bool)
    requires flag ==> inside
    ensures |NodeHeard(node, rule, flag)| <= |NodeUnder(node, rule, inside)|
    ensures NodeKept(node, rule.text, inside, flag)
            <==> |NodeHeard(node, rule, flag)| == |NodeUnder(node, rule, inside)|
    ensures NodeKept(node, rule.text, inside, flag)
            <==> NodeHeard(node, rule, flag) == NodeUnder(node, rule, inside)
    decreases node
  {
    hide ValidFrom, BreakText;
    match node {
      case Leaf(event) =>
      case Element(name, _, children) =>
        HeardIsUnderIff(children, rule, inside || name == rule.text, flag || name == rule.text);
    }
  }

  /** No text element inside another one is enough. */
  lemma {:induction false} ApartIsKept(nodes: seq<Node>, text: Name, inside: bool)
    requires Apart(nodes, text, inside)
    ensures Kept(nodes, text, inside, inside) && FlagAfter(nodes, text, inside) == inside
    decreases nodes
  {
    if nodes != [] {
      NodeApartIsKept(nodes[0], text, inside);
      ApartIsKept(nodes[1..], text, inside);
    }
  }

  lemma {:induction false} NodeApartIsKept(node: Node, text: Name, inside: bool)
    requires NodeApart(node, text, inside)
    ensures NodeKept(node, text, inside, inside) && NodeFlagAfter(node, text, inside) == inside
    decreases node
  {
    if node.Element? {
      ApartIsKept(node.children, text, inside || node.name == text);
    }
  }

  function TotalLength(texts: seq<Text>): nat {
    if texts == [] then 0 else |texts[0]| + TotalLength(texts[1..])
  }

  lemma {:induction false} TotalLengthConcat(a: seq<Text>, b: seq<Text>)
    ensures TotalLength(a + b) == TotalLength(a) + TotalLength(b)
    decreases |a|
  {
    if a == [] {
      assert a + b == b;
    } else {
      assert (a + b)[1..] == a[1..] + b;
      TotalLengthConcat(a[1..], b);
    }
  }

  /** The texts that are heard against those of the tree: never more text, and the same exactly when
      nothing is lost. */
  ghost predicate Compare(heard: seq<Text>, texts: seq<Text>, kept: bool) {
    && |heard| == |texts|
    && TotalLength(heard) <= TotalLength(texts)
    && (kept <==> TotalLength(heard) == TotalLength(texts))
    && (kept <==> heard == texts)
  }

  lemma CompareConcat(
    heard: seq<Text>, texts: seq<Text>, kept: bool, more: seq<Text>, moreTexts: seq<Text>,
    moreKept: bool)
    requires Compare(heard, texts, kept) && Compare(more, moreTexts, moreKept)
    ensures Compare(heard + more, texts + moreTexts, kept && moreKept)
  {
    TotalLengthConcat(heard, more);
    TotalLengthConcat(texts, moreTexts);
  }

  lemma CompareNothing()
    ensures Compare([], [], true)
  {
  }

  lemma CompareOne(heard: Text, text: Text, kept: bool)
    requires |heard| <= |text| && (kept <==> |heard| == |text|) && (kept <==> heard == text)
    ensures Compare([heard], [text], kept)
  {
    hide ValidFrom;
    assert TotalLength([heard]) == |heard| && TotalLength([text]) == |text|;
    if [heard] == [text] {
      assert [heard][0] == [text][0];
    }
  }

  const PLAIN_HEAD := Head(1, [])

  /** A text element in which a letter follows a text element. */
  function Nested(text: Name, letter: Text): Node {
    Element(text, PLAIN_HEAD, [Element(text, PLAIN_HEAD, []), LetterLeaf(letter)])
  }

  function LetterLeaf(letter: Text): Node {
    Leaf(Characters(|letter|, Some(letter)))
  }

  lemma DecodesOne(node: Node, text: Name, flag: bool)
    ensures Decodes([node], text, flag) <==> NodeDecodes(node, text, flag)
  {
    assert [node][1..] == [];
  }

  lemma HeardInTwo(first: Node, second: Node, rule: Rule, flag: bool)
    ensures Heard([first], rule, flag) == NodeHeard(first, rule, flag)
    ensures Heard([first, second], rule, flag)
         == Push(NodeHeard(first, rule, flag),
                 NodeHeard(second, rule, NodeFlagAfter(first, rule.text, flag)))
    ensures Under([first], rule, flag) == NodeUnder(first, rule, flag)
    ensures Under([first, second], rule, flag)
         == Push(NodeUnder(first, rule, flag), NodeUnder(second, rule, flag))
  {
    hide ValidFrom, NodeHeard, NodeUnder, NodeFlagAfter;
    var after := NodeFlagAfter(first, rule.text, flag);
    assert [first, second][1..] == [second] && [second][1..] == [] && [first][1..] == [];
    PushNothing(NodeHeard(first, rule, flag));
    PushNothing(NodeUnder(first, rule, flag));
    PushNothing(NodeHeard(second, rule, after));
    PushNothing(NodeUnder(second, rule, flag));
    assert Heard([second], rule, after) == NodeHeard(second, rule, after);
    assert Under([second], rule, flag) == NodeUnder(second, rule, flag);
  }

  lemma NestedHasNo(text: Name, letter: Text, unit: Name)
    requires text != unit
    ensures forall inside: bool :: NodeApart(Nested(text, letter), unit, inside)
    ensures NodeCount(Nested(text, letter), unit) == 0
  {
    hide ValidFrom;
    var inner, leaf := Element(text, PLAIN_HEAD, []), LetterLeaf(letter);
    assert [inner, leaf][1..] == [leaf] && [leaf][1..] == [];
    forall inside: bool ensures NodeApart(Nested(text, letter), unit, inside) {
      ApartIn(inner, leaf, unit, inside);
    }
    OneNode(leaf, unit, false);
    assert NodeCount(inner, unit) == 0;
    assert Count([inner, leaf], unit) == 0;
  }

  lemma ApartIn(first: Node, second: Node, name: Name, inside: bool)
    ensures Apart([first, second], name, inside)
            <==> NodeApart(first, name, inside) && NodeApart(second, name, inside)
  {
    hide NodeApart;
    assert [first, second][1..] == [second];
    OneNode(second, name, inside);
  }

  /** Its letter is never heard, although it stands under a text element. */
  lemma NestedIsLost(rule: Rule, letter: Text)
    requires letter != []
    ensures var node := Nested(rule.text, letter);
            && NodeHeard(node, rule, false) == NO_TEXT && NodeUnder(node, rule, false) == letter
            && NodeDecodes(node, rule.text, false) && !NodeFlagAfter(node, rule.text, false)
  {
    hide ValidFrom;
    var inner, leaf := Element(rule.text, PLAIN_HEAD, []), LetterLeaf(letter);
    HeardInTwo(inner, leaf, rule, true);
    assert NodeHeard(inner, rule, true) == NO_TEXT == NodeUnder(inner, rule, true);
    assert NodeHeard(leaf, rule, false) == NO_TEXT && NodeUnder(leaf, rule, true) == letter;
    assert NO_TEXT + NO_TEXT == NO_TEXT && NO_TEXT + letter == letter;
    assert [inner, leaf][1..] == [leaf] && [leaf][1..] == [];
    DecodesOne(leaf, rule.text, false);
    assert NodeDecodes(inner, rule.text, true) && Decodes([leaf], rule.text, false);
    assert Decodes([inner, leaf], rule.text, true);
  }

  lemma NestedIsAcceptable(text: Name, letter: Text, depth: nat)
    requires depth + 2 <= MAX_XML_DEPTH && |letter| <= MAX_XML_TEXT_NODE_BYTES
    requires !text.namespace.Undeclared?
    ensures Acceptable([Nested(text, letter)], depth)
    ensures |Flatten([Nested(text, letter)])| == 5
  {
    hide ValidFrom;
    var inner, leaf := Element(text, PLAIN_HEAD, []), LetterLeaf(letter);
    assert [inner, leaf][1..] == [leaf] && [leaf][1..] == [];
    assert HeadFault(PLAIN_HEAD).None?;
    assert Acceptable([leaf], depth + 1);
    assert Acceptable([inner, leaf], depth + 1);
    assert [Nested(text, letter)][1..] == [];
    assert |Flatten([leaf])| == 1 && |FlattenNode(inner)| == 2;
    assert |Flatten([inner, leaf])| == 3;
    assert |FlattenNode(Nested(text, letter))| == 5;
  }
}
