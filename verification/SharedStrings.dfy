/** `parse_shared_strings`: the string table of a workbook, streamed and as a tree. */
module SharedStrings {
  import opened Wrappers
  import opened Utf8
  import opened Execution
  import opened Session
  import opened Xml
  import opened Gathering

  const MAX_SHARED_STRINGS: nat := 65_536
  const ITEM := Name(Spreadsheet, "si")
  const ITEM_TEXT := Name(Spreadsheet, "t")
  const ITEM_RULE := Rule(ITEM_TEXT, false)

  datatype State = State(strings: seq<Text>, current: Option<Text>, inText: bool)

  const START := State([], None, false)

  function Pushed(state: State, more: Text): State
    requires state.current.Some?
  {
    state.(current := Some(Push(state.current.value, more)))
  }

  /** The loop body of `parse_shared_strings`. */
  function React(state: State, event: Event): Progress<State> {
    match event
    case Start(name, _) =>
      if name == ITEM then
        if state.current.Some? || |state.strings| >= MAX_SHARED_STRINGS then
          Fail(OoxmlStructureLimitExceeded)
        else Next(state.(current := Some(NO_TEXT)), [])
      else if name == ITEM_TEXT && state.current.Some? then Next(state.(inText := true), [])
      else Next(state, [])
    case End(name) =>
      if name == ITEM_TEXT then Next(state.(inText := false), [])
      else if name == ITEM then
        if state.current.None? then Fail(InvalidOoxmlXml)
        else Next(State(state.strings + [state.current.value], None, state.inText), [])
      else Next(state, [])
    case Decl(valid) => if valid then Next(state, []) else Fail(InvalidOoxmlXml)
    case _ =>
      if !state.inText || state.current.None? || !CarriesText(event) then Next(state, [])
      else if TextOf(event).None? then Fail(InvalidOoxmlXml)
      else Next(Pushed(state, TextOf(event).value), [])
  }

  const BODY: Body<State> := (state: State, event: Event) => React(state, event)

  const COMPLETE: State -> bool := (state: State) => state.current.None? && !state.inText

  function SharedStringsPlan(events: seq<Event>): seq<Step> {
    StreamPlan(BODY, COMPLETE, Guard(0, 0), START, events)
  }

  /** The string table a stream yields when it is accepted. */
  function TableOf(events: seq<Event>): seq<Text> {
    var run := Run(BODY, Guard(0, 0), START, events);
    if run.final.None? then [] else run.final.value.state.strings
  }

  function FinalStrings(guard: Guard, state: State, events: seq<Event>): seq<Text> {
    var run := Run(BODY, guard, state, events);
    if run.final.None? then [] else run.final.value.state.strings
  }

  lemma FinalStringsTurn(guard: Guard, state: State, events: seq<Event>)
    requires events != [] && AdmissionFault(guard, events[0]).None?
    requires React(state, events[0]).Next?
    ensures FinalStrings(guard, state, events)
         == FinalStrings(Observed(guard, events[0]), React(state, events[0]).state, events[1..])
  {
    hide AdmissionFault, GuardFault, ValidFrom;
  }

  method ParseSharedStrings(session: Session, events: seq<Event>, ghost budget: Budget)
    returns (strings: seq<Text>, error: Option<ExtractionError>)
    requires budget.control == session.control
    modifies session
    ensures Outcome(session.State(), error)
         == Execute(SharedStringsPlan(events), budget, old(session.State()))
    ensures error.None? ==> strings == TableOf(events)
  {
    hide Execute, StreamPlan, ValidFrom, GuardFault, Run;
    ghost var goal := Execute(SharedStringsPlan(events), budget, session.State());
    var guard := new XmlGuard();
    strings := [];
    var current: Option<Text>, inText := None, false;
    assert events[0..] == events;
    for next := 0 to |events|
      invariant fresh(guard)
      invariant goal == Execute(StreamPlan(BODY, COMPLETE, guard.State(),
                                           State(strings, current, inText), events[next..]),
                                budget, session.State())
      invariant TableOf(events)
             == FinalStrings(guard.State(), State(strings, current, inText), events[next..])
    {
      var event := events[next];
      ghost var before := guard.State();
      ghost var state := State(strings, current, inText);
      StreamTurn(BODY, COMPLETE, before, state, events[next..], budget, session.State());
      assert events[next..][1..] == events[next + 1..];
      var stop := session.Check();
      if stop.Some? {
        return strings, Some(Stopped(stop.value));
      }
      if event.Malformed? {
        return strings, Some(InvalidOoxmlXml);
      }
      if (event.Start? || event.Empty? || event.End?) && event.name.namespace.Undeclared? {
        return strings, Some(InvalidOoxmlXml);
      }
      var fault := guard.Observe(event);
      if fault.Some? {
        return strings, fault;
      }
      ExecuteNothing(budget, session.State());
      if event.Start? && event.name == ITEM {
        if current.Some? || |strings| >= MAX_SHARED_STRINGS {
          return strings, Some(OoxmlStructureLimitExceeded);
        }
        current := Some(NO_TEXT);
      } else if event.Start? && event.name == ITEM_TEXT && current.Some? {
        inText := true;
      } else if CarriesText(event) && inText && current.Some? {
        if TextOf(event).None? {
          return strings, Some(InvalidOoxmlXml);
        }
        current := Some(Push(current.value, TextOf(event).value));
      } else if event.End? && event.name == ITEM_TEXT {
        inText := false;
      } else if event.End? && event.name == ITEM {
        if current.None? {
          return strings, Some(InvalidOoxmlXml);
        }
        strings, current := strings + [current.value], None;
      } else if event.Decl? && !event.valid {
        return strings, Some(InvalidOoxmlXml);
      }
      FinalStringsTurn(before, state, events[next..]);
    }
    EndTurn(BODY, COMPLETE, guard.State(), State(strings, current, inText), budget,
            session.State());
    assert events[|events|..] == [];
    AtTheEnd(guard.State(), State(strings, current, inText));
    var stop := session.Check();
    if stop.Some? {
      return strings, Some(Stopped(stop.value));
    }
    var fault := guard.ObserveEof();
    if fault.Some? {
      return strings, fault;
    }
    if current.Some? || inText {
      return strings, Some(InvalidOoxmlXml);
    }
    return strings, if guard.depth == 0 then None else Some(InvalidOoxmlXml);
  }

  lemma AtTheEnd(guard: Guard, state: State)
    ensures FinalStrings(guard, state, []) == state.strings
  {
  }

  // What the stream of a tree comes to. Outside items the text flag is never set.

  /** What is heard in the items of a forest, in document order. */
  function HeardItems(nodes: seq<Node>): seq<Text> {
    if nodes == [] then [] else NodeHeardItems(nodes[0]) + HeardItems(nodes[1..])
  }

  function NodeHeardItems(node: Node): seq<Text> {
    match node
    case Element(name, _, children) =>
      if name == ITEM then [Heard(children, ITEM_RULE, false)] else HeardItems(children)
    case Leaf(_) => []
  }

  /** All text that is met in an item while the flag is set decodes, and declarations are valid. */
  predicate TableDecodes(nodes: seq<Node>) {
    nodes == [] || (NodeTableDecodes(nodes[0]) && TableDecodes(nodes[1..]))
  }

  predicate NodeTableDecodes(node: Node) {
    match node
    case Element(name, _, children) =>
      if name == ITEM then Decodes(children, ITEM_TEXT, false) else TableDecodes(children)
    case Leaf(event) => event.Decl? ==> event.valid
  }

  lemma PushPush(state: State, a: Text, b: Text)
    requires state.current.Some?
    ensures Pushed(Pushed(state, a), b) == Pushed(state, Push(a, b))
  {
    assert state.current.value + a + b == state.current.value + (a + b);
  }

  /** Inside an item the stream goes through exactly when there is no item and everything that is
      heard decodes; what is heard is then the text of the item. */
  lemma {:induction false} WalkInside(nodes: seq<Node>, depth: nat, state: State)
    requires Acceptable(nodes, depth) && state.current.Some?
    ensures var walk := Walk(BODY, state, nodes);
            && (walk.final.Some?
                <==> Apart(nodes, ITEM, true) && Decodes(nodes, ITEM_TEXT, state.inText))
            && (walk.final.Some? ==>
                  && walk.final.value
                     == Pushed(state, Heard(nodes, ITEM_RULE, state.inText))
                        .(inText := FlagAfter(nodes, ITEM_TEXT, state.inText))
                  && Silent(walk.plan))
    decreases nodes
  {
    hide ValidFrom, React, WalkNode, Silent;
    if nodes == [] {
      PushNothing(state.current.value);
      NothingIsSilent();
    } else {
      var node, tail := nodes[0], nodes[1..];
      NodeInside(node, depth, state);
      var first := WalkNode(BODY, state, node);
      if first.final.Some? {
        var middle := first.final.value;
        WalkInside(tail, depth, middle);
        if Walk(BODY, middle, tail).final.Some? {
          SilentConcat(first.plan, Walk(BODY, middle, tail).plan);
          PushPush(state, NodeHeard(node, ITEM_RULE, state.inText),
                   Heard(tail, ITEM_RULE, middle.inText));
        }
      }
    }
  }

  lemma {:induction false} NodeInside(node: Node, depth: nat, state: State)
    requires Acceptable([node], depth) && state.current.Some?
    ensures var walk := WalkNode(BODY, state, node);
            && (walk.final.Some?
                <==> NodeApart(node, ITEM, true) && NodeDecodes(node, ITEM_TEXT, state.inText))
            && (walk.final.Some? ==>
                  && walk.final.value
                     == Pushed(state, NodeHeard(node, ITEM_RULE, state.inText))
                        .(inText := NodeFlagAfter(node, ITEM_TEXT, state.inText))
                  && Silent(walk.plan))
    decreases node
  {
    hide ValidFrom, Walk, Silent;
    match node {
      case Leaf(event) =>
        LeafInside(event, state);
      case Element(name, head, children) =>
        if name == ITEM {
          ElementFails(BODY, state, node);
        } else {
          var inside := state.(inText := state.inText || name == ITEM_TEXT);
          WalkInside(children, depth + 1, inside);
          var inner := Walk(BODY, inside, children);
          if inner.final.None? {
            ElementFails(BODY, state, node);
          } else {
            var end := inner.final.value;
            ElementWalk(BODY, state, node, inside, end,
                        end.(inText := name != ITEM_TEXT && end.inText), []);
            SilentElement(inner.plan);
          }
        }
    }
  }

  lemma LeafInside(event: Event, state: State)
    requires AcceptableLeaf(event) && state.current.Some?
    ensures var once := Once(BODY, state, event);
            if LeafDecodes(event, state.inText) then
              once == Trace([Gate], Some(Pushed(state, LeafText(event, ITEM_RULE, state.inText))))
            else once.final.None?
    ensures Silent([Gate])
  {
    hide ValidFrom, HeadFault;
    PushNothing(state.current.value);
    assert [Gate] + [] == [Gate];
  }

  /** Outside items the stream goes through exactly when no item is inside another, there is room for
      all of them, and everything that is heard decodes; it then adds what was heard in each. */
  lemma {:induction false} WalkOutside(nodes: seq<Node>, depth: nat, state: State)
    requires Acceptable(nodes, depth) && state.current.None? && !state.inText
    requires |state.strings| <= MAX_SHARED_STRINGS
    ensures var walk := Walk(BODY, state, nodes);
            && (walk.final.Some?
                <==> && Apart(nodes, ITEM, false) && TableDecodes(nodes)
                     && |state.strings| + Count(nodes, ITEM) <= MAX_SHARED_STRINGS)
            && (walk.final.Some? ==>
                  && walk.final.value == State(state.strings + HeardItems(nodes), None, false)
                  && |HeardItems(nodes)| == Count(nodes, ITEM)
                  && Silent(walk.plan))
    decreases nodes, 0
  {
    hide ValidFrom, React, WalkNode, Silent;
    if nodes == [] {
      assert state.strings + [] == state.strings;
      NothingIsSilent();
    } else {
      var node, tail := nodes[0], nodes[1..];
      NodeOutside(node, depth, state);
      var first := WalkNode(BODY, state, node);
      if first.final.Some? {
        var middle := first.final.value;
        WalkOutside(tail, depth, middle);
        if Walk(BODY, middle, tail).final.Some? {
          SilentConcat(first.plan, Walk(BODY, middle, tail).plan);
          assert state.strings + NodeHeardItems(node) + HeardItems(tail)
              == state.strings + (NodeHeardItems(node) + HeardItems(tail));
        }
      }
    }
  }

  lemma {:induction false} NodeOutside(node: Node, depth: nat, state: State)
    requires Acceptable([node], depth) && state.current.None? && !state.inText
    requires |state.strings| <= MAX_SHARED_STRINGS
    ensures var walk := WalkNode(BODY, state, node);
            && (walk.final.Some?
                <==> && NodeApart(node, ITEM, false) && NodeTableDecodes(node)
                     && |state.strings| + NodeCount(node, ITEM) <= MAX_SHARED_STRINGS)
            && (walk.final.Some? ==>
                  && walk.final.value == State(state.strings + NodeHeardItems(node), None, false)
                  && |NodeHeardItems(node)| == NodeCount(node, ITEM)
                  && Silent(walk.plan))
    decreases node, 0
  {
    hide ValidFrom, Walk, Silent;
    match node {
      case Leaf(event) =>
        LeafOutside(event, state);
        assert state.strings + [] == state.strings;
      case Element(name, head, children) =>
        if name == ITEM {
          ItemNode(node, depth, state);
        } else {
          WalkOutside(children, depth + 1, state);
          var inner := Walk(BODY, state, children);
          if inner.final.None? {
            ElementFails(BODY, state, node);
          } else {
            var end := inner.final.value;
            ElementWalk(BODY, state, node, state, end, end, []);
            SilentElement(inner.plan);
          }
        }
    }
  }

  lemma LeafOutside(event: Event, state: State)
    requires AcceptableLeaf(event) && state.current.None?
    ensures var once := Once(BODY, state, event);
            if event.Decl? && !event.valid then once.final.None?
            else once == Trace([Gate], Some(state))
    ensures Silent([Gate])
  {
    hide ValidFrom, HeadFault;
    assert [Gate] + [] == [Gate];
  }

  /** An item element opens an entry, gathers its text, and closes it. */
  lemma ItemNode(node: Node, depth: nat, state: State)
    requires node.Element? && node.name == ITEM && Acceptable(node.children, depth + 1)
    requires state.current.None? && !state.inText && |state.strings| <= MAX_SHARED_STRINGS
    ensures var walk := WalkNode(BODY, state, node);
            && (walk.final.Some?
                <==> && Apart(node.children, ITEM, true) && Decodes(node.children, ITEM_TEXT, false)
                     && |state.strings| + NodeCount(node, ITEM) <= MAX_SHARED_STRINGS)
            && (walk.final.Some? ==>
                  && walk.final.value == State(state.strings + NodeHeardItems(node), None, false)
                  && NodeCount(node, ITEM) == 1
                  && Silent(walk.plan))
  {
    hide ValidFrom, Walk, WalkNode, Silent;
    if |state.strings| >= MAX_SHARED_STRINGS {
      ElementFails(BODY, state, node);
    } else {
      var text := Heard(node.children, ITEM_RULE, false);
      var atStart := state.(current := Some(NO_TEXT));
      WalkInside(node.children, depth + 1, atStart);
      var inner := Walk(BODY, atStart, node.children);
      if inner.final.None? {
        ElementFails(BODY, state, node);
      } else {
        NoneInside(node.children, ITEM);
        FlagNeverRises(node.children, ITEM_TEXT);
        assert NO_TEXT + text == text;
        ElementWalk(BODY, state, node, atStart, inner.final.value,
                    State(state.strings + [text], None, false), []);
        SilentElement(inner.plan);
      }
    }
  }

  /** What the pass takes: no item inside an item, no more items than are allowed, and everything that
      is heard decodes. */
  predicate Taken(tree: seq<Node>) {
    && Apart(tree, ITEM, false) && Count(tree, ITEM) <= MAX_SHARED_STRINGS
    && TableDecodes(tree)
  }

  /** On every tree that the guard lets through, the pass takes its events exactly when the tree is as
      described by `Taken`, and refuses them otherwise; it then returns what is heard in each item,
      and emits nothing. */
  lemma TakesTreeIff(tree: seq<Node>)
    requires Readable(tree)
    ensures var plan := SharedStringsPlan(Flatten(tree));
            && (RejectsNothing(plan) <==> Taken(tree))
            && (RejectsNothing(plan) ==>
                  TableOf(Flatten(tree)) == HeardItems(tree) && HasNoPieces(plan))
  {
    hide ValidFrom, Flatten, Walk, RejectsNothing, Apart, StreamPlan, Run, HasNoPieces, TableDecodes,
         HeardItems;
    var walk := Walk(BODY, START, tree);
    TreePlan(BODY, COMPLETE, START, tree);
    RunFlattens(BODY, Guard(0, 0), START, tree);
    WalkOutside(tree, 0, START);
    if walk.final.None? {
      FailedWalkRejects(BODY, START, tree);
      assert walk.plan + [] == walk.plan;
    } else {
      assert [] + HeardItems(tree) == HeardItems(tree);
      GateRejectsNothing();
      SilentConcat(walk.plan, [Gate]);
    }
  }

  // The same table as a tree.

  /** One entry for each item of a forest, in document order: what stands under text elements. */
  function Items(nodes: seq<Node>): seq<Text> {
    if nodes == [] then [] else NodeItems(nodes[0]) + Items(nodes[1..])
  }

  function NodeItems(node: Node): seq<Text> {
    match node
    case Element(name, _, children) =>
      if name == ITEM then [Under(children, ITEM_RULE, false)] else Items(children)
    case Leaf(_) => []
  }

  /** Nothing is lost in any item. */
  predicate TableKept(nodes: seq<Node>) {
    nodes == [] || (NodeTableKept(nodes[0]) && TableKept(nodes[1..]))
  }

  predicate NodeTableKept(node: Node) {
    match node
    case Element(name, _, children) =>
      if name == ITEM then Kept(children, ITEM_TEXT, false, false) else TableKept(children)
    case Leaf(_) => true
  }

  lemma {:induction false} HeardItemsIff(nodes: seq<Node>)
    ensures Compare(HeardItems(nodes), Items(nodes), TableKept(nodes))
    decreases nodes
  {
    hide Compare;
    if nodes == [] {
      CompareNothing();
    } else {
      NodeHeardItemsIff(nodes[0]);
      HeardItemsIff(nodes[1..]);
      CompareConcat(NodeHeardItems(nodes[0]), NodeItems(nodes[0]), NodeTableKept(nodes[0]),
                    HeardItems(nodes[1..]), Items(nodes[1..]), TableKept(nodes[1..]));
    }
  }

  lemma {:induction false} NodeHeardItemsIff(node: Node)
    ensures Compare(NodeHeardItems(node), NodeItems(node), NodeTableKept(node))
    decreases node
  {
    hide Compare;
    match node {
      case Leaf(_) =>
        CompareNothing();
      case Element(name, _, children) =>
        if name == ITEM {
          HeardIsUnderIff(children, ITEM_RULE, false, false);
          CompareOne(Heard(children, ITEM_RULE, false), Under(children, ITEM_RULE, false),
                     Kept(children, ITEM_TEXT, false, false));
        } else {
          HeardItemsIff(children);
        }
    }
  }

  /** The table that is returned is that of the tree if and only if nothing is lost in it. */
  lemma TableEqualsTreeIff(tree: seq<Node>)
    requires Readable(tree) && Taken(tree)
    ensures TableOf(Flatten(tree)) == Items(tree) <==> TableKept(tree)
  {
    hide Taken, TableOf, Items, TableKept, HeardItems, Flatten, RejectsNothing;
    TakesTreeIff(tree);
    HeardItemsIff(tree);
  }

  /** With no text element inside a text element nothing is lost. */
  lemma {:induction false} PlainIsKept(nodes: seq<Node>)
    requires Apart(nodes, ITEM_TEXT, false)
    ensures TableKept(nodes)
    decreases nodes
  {
    if nodes != [] {
      PlainIsKept(nodes[1..]);
      if nodes[0].Element? {
        var children := nodes[0].children;
        if nodes[0].name == ITEM_TEXT {
          ApartOutside(children, ITEM_TEXT);
        }
        ApartIsKept(children, ITEM_TEXT, false);
        PlainIsKept(children);
      }
    }
  }

  const TABLE := Name(Spreadsheet, "sst")

  /** A table with one item, in which a letter follows a text element inside a text element. The head of
      the root element, which declares the namespace, is left open. */
  function Lossy(root: Head, letter: Text): seq<Node> {
    [Element(TABLE, root, [LossyItem(letter)])]
  }

  function LossyItem(letter: Text): Node {
    Element(ITEM, Head(2, []), [Nested(ITEM_TEXT, letter)])
  }

  /** The pass takes that table and returns an empty entry, although the letter is in the tree. */
  lemma NestedTextIsLost(root: Head, letter: Text)
    requires 0 < |letter| <= MAX_XML_TEXT_NODE_BYTES && HeadFault(root).None?
    ensures var tree := Lossy(root, letter);
            && Readable(tree) && RejectsNothing(SharedStringsPlan(Flatten(tree)))
            && TableOf(Flatten(tree)) == [NO_TEXT] && Items(tree) == [letter]
  {
    hide ValidFrom, RejectsNothing, TableOf, SharedStringsPlan, LossyItem, HeadFault, NodeHeardItems,
         NodeItems, NodeTableDecodes;
    var node, tree := LossyItem(letter), Lossy(root, letter);
    LossyItemFacts(letter);
    RootIsReadable(TABLE, root, node);
    OneChild(node);
    OneChild(tree[0]);
    RootAddsNothing(root, node);
    TakesTreeIff(tree);
  }

  lemma LossyItemFacts(letter: Text)
    requires 0 < |letter| <= MAX_XML_TEXT_NODE_BYTES
    ensures var node := LossyItem(letter);
            && Acceptable([node], 1) && |Flatten([node])| == 7
            && NodeApart(node, ITEM, false) && NodeCount(node, ITEM) == 1 && NodeTableDecodes(node)
            && NodeHeardItems(node) == [NO_TEXT] && NodeItems(node) == [letter]
  {
    hide ValidFrom;
    var inner, node := Nested(ITEM_TEXT, letter), LossyItem(letter);
    NestedIsLost(ITEM_RULE, letter);
    NestedIsAcceptable(ITEM_TEXT, letter, 2);
    HeardInTwo(inner, inner, ITEM_RULE, false);
    NestedHasNo(ITEM_TEXT, letter, ITEM);
    hide Nested;
    OneNode(inner, ITEM, true);
    DecodesOne(inner, ITEM_TEXT, false);
    assert [node][1..] == [] && [inner][1..] == [];
    assert HeadFault(node.head).None?;
    assert |FlattenNode(node)| == 7;
  }

  lemma OneChild(node: Node)
    ensures HeardItems([node]) == NodeHeardItems(node) && Items([node]) == NodeItems(node)
    ensures TableDecodes([node]) <==> NodeTableDecodes(node)
    ensures Apart([node], ITEM, false) <==> NodeApart(node, ITEM, false)
    ensures Count([node], ITEM) == NodeCount(node, ITEM)
  {
    assert [node][1..] == [];
    assert NodeHeardItems(node) + [] == NodeHeardItems(node);
    assert NodeItems(node) + [] == NodeItems(node);
  }

  lemma RootAddsNothing(root: Head, child: Node)
    ensures var node := Element(TABLE, root, [child]);
            && NodeHeardItems(node) == HeardItems([child]) && NodeItems(node) == Items([child])
            && (NodeTableDecodes(node) <==> TableDecodes([child]))
            && (NodeApart(node, ITEM, false) <==> Apart([child], ITEM, false))
            && NodeCount(node, ITEM) == Count([child], ITEM)
  {
    assert |"sst"| != |"si"|;
  }

  /** All that the parser itself objects to is invalid XML, but for one item too many, or an item inside an
      item. */
  lemma ObjectsWith(state: State, event: Event)
    requires React(state, event).Fail?
    ensures React(state, event).error
            == if event.Start? then OoxmlStructureLimitExceeded else InvalidOoxmlXml
    ensures event.Start? ==> state.current.Some? || |state.strings| >= 65_536
  {
    hide ValidFrom;
  }

  lemma ChecksMade(events: seq<Event>)
    requires RejectsNothing(SharedStringsPlan(events))
    ensures |SharedStringsPlan(events)| == |events| + 1 + |PiecesOf(SharedStringsPlan(events))|
  {
    hide StreamPlan, RejectsNothing, PiecesOf, ValidFrom;
    forall state: State, event: Event | React(state, event).Next?
      ensures PiecesOf(React(state, event).emitted) == React(state, event).emitted
    {
      WithoutPieces([]);
    }
    ChecksOfStream(BODY, COMPLETE, START, events);
  }
}
