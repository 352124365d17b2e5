/** `parse_docx`: the paragraphs of a word-processing document, streamed and as a tree. */
module Docx {
  import opened Wrappers
  import opened Utf8
  import opened Execution
  import opened Chunking
  import opened Session
  import opened Units
  import opened Xml
  import opened Gathering
  import opened Recovery

  const PARAGRAPH := Name(Wordprocessing, "p")
  const RUN_TEXT := Name(Wordprocessing, "t")
  const PARAGRAPH_TEXT := Rule(RUN_TEXT, true)

  function ParagraphLabel(number: nat): Label {
    (r: Range, index: nat) => DocxParagraph(number, index)
  }

  datatype State = State(number: nat, paragraph: Option<Text>, inText: bool)

  const START := State(0, None, false)

  /** The loop body of `parse_docx`. */
  function React(limits: Limits, state: State, event: Event): Progress<State>
    requires limits.Valid()
  {
    match event
    case Start(name, _) =>
      if name == PARAGRAPH then
        if state.paragraph.Some? then Fail(InvalidOoxmlXml)
        else if state.number + 1 > MAX_STRUCTURAL_UNITS then Fail(OoxmlStructureLimitExceeded)
        else Next(State(state.number + 1, Some([]), state.inText), [])
      else if name == RUN_TEXT then Next(state.(inText := true), [])
      else Next(state, [])
    case End(name) =>
      if name == RUN_TEXT then Next(state.(inText := false), [])
      else if name == PARAGRAPH then
        if state.paragraph.None? then Fail(InvalidOoxmlXml)
        else Next(state.(paragraph := None),
                  UnitPieces(state.paragraph.value, limits, ParagraphLabel(state.number)))
      else Next(state, [])
    case Decl(valid) => if valid then Next(state, []) else Fail(InvalidOoxmlXml)
    case Empty(name, _) =>
      if name == TAB_NAME && state.paragraph.Some? then Next(Pushed(state, TAB), [])
      else if name == BREAK_NAME && state.paragraph.Some? then Next(Pushed(state, LINE_BREAK), [])
      else Next(state, [])
    case _ =>
      if !state.inText || state.paragraph.None? || !CarriesText(event) then Next(state, [])
      else if TextOf(event).None? then Fail(InvalidOoxmlXml)
      else Next(Pushed(state, TextOf(event).value), [])
  }

  function Pushed(state: State, more: Text): State
    requires state.paragraph.Some?
  {
    state.(paragraph := Some(Push(state.paragraph.value, more)))
  }

  function BodyOf(limits: Limits): Body<State>
    requires limits.Valid()
  {
    (state: State, event: Event) => React(limits, state, event)
  }

  const COMPLETE: State -> bool := (state: State) => state.paragraph.None? && !state.inText

  function DocxPlan(events: seq<Event>, limits: Limits): seq<Step>
    requires limits.Valid()
  {
    StreamPlan(BodyOf(limits), COMPLETE, Guard(0, 0), START, events)
  }

  method ParseDocx(session: Session, events: seq<Event>, limits: Limits)
    returns (error: Option<ExtractionError>)
    requires limits.Valid()
    modifies session
    ensures Outcome(session.State(), error)
         == Execute(DocxPlan(events, limits), session.BudgetOf(limits), old(session.State()))
  {
    hide Execute, StreamPlan, Pieces, ValidFrom, GuardFault;
    ghost var budget, body := session.BudgetOf(limits), BodyOf(limits);
    ghost var goal := Execute(DocxPlan(events, limits), budget, session.State());
    var guard := new XmlGuard();
    var paragraphNumber: nat, inText := 0, false;
    var paragraph: Option<Text> := None;
    assert events[0..] == events;
    for next := 0 to |events|
      invariant fresh(guard)
      invariant goal == Execute(StreamPlan(body, COMPLETE, guard.State(),
                                           State(paragraphNumber, paragraph, inText),
                                           events[next..]),
                                budget, session.State())
    {
      var event := events[next];
      StreamTurn(body, COMPLETE, guard.State(), State(paragraphNumber, paragraph, inText),
                 events[next..], budget, session.State());
      assert events[next..][1..] == events[next + 1..];
      var stop := session.Check();
      if stop.Some? {
        return Some(Stopped(stop.value));
      }
      if event.Malformed? {
        return Some(InvalidOoxmlXml);
      }
      if (event.Start? || event.Empty? || event.End?) && event.name.namespace.Undeclared? {
        return Some(InvalidOoxmlXml);
      }
      var fault := guard.Observe(event);
      if fault.Some? {
        return fault;
      }
      ExecuteNothing(budget, session.State());
      if event.Start? && event.name == PARAGRAPH {
        if paragraph.Some? {
          return Some(InvalidOoxmlXml);
        }
        paragraphNumber := paragraphNumber + 1;
        if paragraphNumber > MAX_STRUCTURAL_UNITS {
          return Some(OoxmlStructureLimitExceeded);
        }
        paragraph := Some([]);
      } else if event.Start? && event.name == RUN_TEXT {
        inText := true;
      } else if event.Empty? && event.name == TAB_NAME && paragraph.Some? {
        paragraph := Some(Push(paragraph.value, TAB));
      } else if event.Empty? && event.name == BREAK_NAME && paragraph.Some? {
        paragraph := Some(Push(paragraph.value, LINE_BREAK));
      } else if CarriesText(event) && inText && paragraph.Some? {
        if TextOf(event).None? {
          return Some(InvalidOoxmlXml);
        }
        paragraph := Some(Push(paragraph.value, TextOf(event).value));
      } else if event.End? && event.name == RUN_TEXT {
        inText := false;
      } else if event.End? && event.name == PARAGRAPH {
        if paragraph.None? {
          return Some(InvalidOoxmlXml);
        }
        var content := paragraph.value;
        paragraph := None;
        var failure := session.AppendStructuralChunks(
          content, limits, ParagraphLabel(paragraphNumber));
        if failure.Some? {
          return failure;
        }
      } else if event.Decl? && !event.valid {
        return Some(InvalidOoxmlXml);
      }
    }
    EndTurn(body, COMPLETE, guard.State(), State(paragraphNumber, paragraph, inText), budget,
            session.State());
    assert events[|events|..] == [];
    var stop := session.Check();
    if stop.Some? {
      return Some(Stopped(stop.value));
    }
    var fault := guard.ObserveEof();
    if fault.Some? {
      return fault;
    }
    if paragraph.Some? || inText {
      return Some(InvalidOoxmlXml);
    }
    return if guard.depth == 0 then None else Some(InvalidOoxmlXml);
  }

  // What the stream of a tree comes to.

  /** The texts heard in the paragraphs of a forest, in document order. */
  function HeardParagraphs(nodes: seq<Node>, flag: bool): seq<Text> {
    if nodes == [] then []
    else
      NodeHeardParagraphs(nodes[0], flag)
      + HeardParagraphs(nodes[1..], NodeFlagAfter(nodes[0], RUN_TEXT, flag))
  }

  function NodeHeardParagraphs(node: Node, flag: bool): seq<Text> {
    match node
    case Element(name, _, children) =>
      if name == PARAGRAPH then [Heard(children, PARAGRAPH_TEXT, flag)]
      else HeardParagraphs(children, flag || name == RUN_TEXT)
    case Leaf(_) => []
  }

  /** All text that is met in a paragraph while the flag is set decodes, and declarations are valid. */
  predicate DocumentDecodes(nodes: seq<Node>, flag: bool) {
    nodes == []
    || (NodeDocumentDecodes(nodes[0], flag)
        && DocumentDecodes(nodes[1..], NodeFlagAfter(nodes[0], RUN_TEXT, flag)))
  }

  predicate NodeDocumentDecodes(node: Node, flag: bool) {
    match node
    case Element(name, _, children) =>
      if name == PARAGRAPH then Decodes(children, RUN_TEXT, flag)
      else DocumentDecodes(children, flag || name == RUN_TEXT)
    case Leaf(event) => event.Decl? ==> event.valid
  }

  /** The paragraphs as units, numbered on from `number`. */
  function UnitsOf(paragraphs: seq<Text>, number: nat): (units: seq<Unit>)
    ensures |units| == |paragraphs| && AllReadable(units)
  {
    seq(|paragraphs|, k requires 0 <= k < |paragraphs| =>
      Unit(0, paragraphs[k], ParagraphLabel(number + k + 1)))
  }

  lemma UnitsOfConcat(a: seq<Text>, b: seq<Text>, number: nat)
    ensures UnitsOf(a + b, number) == UnitsOf(a, number) + UnitsOf(b, number + |a|)
  {
    var left, right := UnitsOf(a + b, number), UnitsOf(a, number) + UnitsOf(b, number + |a|);
    forall k | 0 <= k < |left| ensures left[k] == right[k] {
      if k >= |a| {
        assert (a + b)[k] == b[k - |a|];
      }
    }
  }

  lemma PushPush(state: State, a: Text, b: Text)
    requires state.paragraph.Some?
    ensures Pushed(Pushed(state, a), b) == Pushed(state, Push(a, b))
  {
    assert state.paragraph.value + a + b == state.paragraph.value + (a + b);
  }

  /** Inside a paragraph the stream goes through exactly when there is no paragraph and everything
      that is heard decodes; what is heard is then the text of the paragraph. */
  lemma {:induction false} WalkInside(nodes: seq<Node>, depth: nat, limits: Limits, state: State)
    requires limits.Valid() && Acceptable(nodes, depth) && state.paragraph.Some?
    ensures var walk := Walk(BodyOf(limits), state, nodes);
            && (walk.final.Some?
                <==> Apart(nodes, PARAGRAPH, true) && Decodes(nodes, RUN_TEXT, state.inText))
            && (walk.final.Some? ==>
                  && walk.final.value
                     == Pushed(state, Heard(nodes, PARAGRAPH_TEXT, state.inText))
                        .(inText := FlagAfter(nodes, RUN_TEXT, state.inText))
                  && Silent(walk.plan))
    decreases nodes
  {
    hide ValidFrom, React, WalkNode, Silent;
    if nodes == [] {
      PushNothing(state.paragraph.value);
      NothingIsSilent();
    } else {
      var node, tail := nodes[0], nodes[1..];
      NodeInside(node, depth, limits, state);
      var first := WalkNode(BodyOf(limits), state, node);
      if first.final.Some? {
        var middle := first.final.value;
        WalkInside(tail, depth, limits, middle);
        if Walk(BodyOf(limits), middle, tail).final.Some? {
          SilentConcat(first.plan, Walk(BodyOf(limits), middle, tail).plan);
          PushPush(state, NodeHeard(node, PARAGRAPH_TEXT, state.inText),
                   Heard(tail, PARAGRAPH_TEXT, middle.inText));
        }
      }
    }
  }

  lemma {:induction false} NodeInside(node: Node, depth: nat, limits: Limits, state: State)
    requires limits.Valid() && Acceptable([node], depth) && state.paragraph.Some?
    ensures var walk := WalkNode(BodyOf(limits), state, node);
            && (walk.final.Some?
                <==> NodeApart(node, PARAGRAPH, true) && NodeDecodes(node, RUN_TEXT, state.inText))
            && (walk.final.Some? ==>
                  && walk.final.value
                     == Pushed(state, NodeHeard(node, PARAGRAPH_TEXT, state.inText))
                        .(inText := NodeFlagAfter(node, RUN_TEXT, state.inText))
                  && Silent(walk.plan))
    decreases node
  {
    hide ValidFrom, Walk, Silent;
    match node {
      case Leaf(event) =>
        LeafInside(event, limits, state);
      case Element(name, head, children) =>
        if name == PARAGRAPH {
          ElementFails(BodyOf(limits), state, node);
        } else {
          var inside := state.(inText := state.inText || name == RUN_TEXT);
          WalkInside(children, depth + 1, limits, inside);
          var inner := Walk(BodyOf(limits), inside, children);
          if inner.final.None? {
            ElementFails(BodyOf(limits), state, node);
          } else {
            var end := inner.final.value;
            ElementWalk(BodyOf(limits), state, node, inside, end,
                        end.(inText := name != RUN_TEXT && end.inText), []);
            SilentElement(inner.plan);
          }
        }
    }
  }

  lemma LeafInside(event: Event, limits: Limits, state: State)
    requires limits.Valid() && AcceptableLeaf(event) && state.paragraph.Some?
    ensures var once := Once(BodyOf(limits), state, event);
            if LeafDecodes(event, state.inText) then
              once == Trace([Gate],
                            Some(Pushed(state, LeafText(event, PARAGRAPH_TEXT, state.inText))))
            else once.final.None?
    ensures Silent([Gate])
  {
    hide ValidFrom, Pieces, HeadFault;
    PushNothing(state.paragraph.value);
    assert [Gate] + [] == [Gate];
  }

  /** Outside paragraphs the stream goes through exactly when no paragraph is inside another, there
      are not too many, and everything that is heard decodes; it then emits what was heard in each
      paragraph, numbered on. */
  lemma {:induction false} WalkOutside(nodes: seq<Node>, depth: nat, limits: Limits, state: State)
    requires limits.Valid() && Acceptable(nodes, depth) && state.paragraph.None?
    requires state.number <= MAX_STRUCTURAL_UNITS
    ensures var walk := Walk(BodyOf(limits), state, nodes);
            && (walk.final.Some?
                <==> && Apart(nodes, PARAGRAPH, false)
                     && state.number + Count(nodes, PARAGRAPH) <= MAX_STRUCTURAL_UNITS
                     && DocumentDecodes(nodes, state.inText))
            && (walk.final.Some? ==>
                  && walk.final.value == State(state.number + Count(nodes, PARAGRAPH), None,
                                               FlagAfter(nodes, RUN_TEXT, state.inText))
                  && Emits(walk.plan, HeardParagraphs(nodes, state.inText), state.number,
                           Count(nodes, PARAGRAPH), limits))
    decreases nodes, 0
  {
    hide ValidFrom, React, WalkNode, Emits;
    if nodes == [] {
      EmitsNothing(state.number, limits);
    } else {
      var node, tail := nodes[0], nodes[1..];
      NodeOutside(node, depth, limits, state);
      var first := WalkNode(BodyOf(limits), state, node);
      if first.final.Some? {
        var middle := first.final.value;
        WalkOutside(tail, depth, limits, middle);
        var rest := Walk(BodyOf(limits), middle, tail);
        if rest.final.Some? {
          EmitsConcat(first.plan, NodeHeardParagraphs(node, state.inText), state.number,
                      NodeCount(node, PARAGRAPH), rest.plan, HeardParagraphs(tail, middle.inText),
                      Count(tail, PARAGRAPH), limits);
        }
      }
    }
  }

  /** A plan that emits the chunks of so many paragraphs, numbered on, and meets no error. */
  ghost predicate Emits(
    plan: seq<Step>, paragraphs: seq<Text>, number: nat, count: nat, limits: Limits)
    requires limits.Valid()
  {
    && |paragraphs| == count
    && PiecesOf(plan) == AllPieces(UnitsOf(paragraphs, number), limits)
    && RejectsNothing(plan)
  }

  lemma EmitsNothing(number: nat, limits: Limits)
    requires limits.Valid()
    ensures Emits([], [], number, 0, limits) && Emits([Gate], [], number, 0, limits)
  {
    WithoutPieces([]);
    WithoutPieces([Gate]);
    NoUnits(limits);
  }

  lemma EmitsConcat(
    plan: seq<Step>, own: seq<Text>, number: nat, count: nat, rest: seq<Step>, more: seq<Text>,
    restCount: nat, limits: Limits)
    requires limits.Valid() && Emits(plan, own, number, count, limits)
    requires Emits(rest, more, number + count, restCount, limits)
    ensures Emits(plan + rest, own + more, number, count + restCount, limits)
  {
    hide ValidFrom, Pieces, PiecesOf, AllPieces, RejectsNothing, UnitsOf;
    PiecesOfConcat(plan, rest);
    RejectsNothingConcat(plan, rest);
    UnitsOfConcat(own, more, number);
    AllPiecesConcat(UnitsOf(own, number), UnitsOf(more, number + |own|), limits);
  }

  lemma NoUnits(limits: Limits)
    requires limits.Valid()
    ensures AllPieces([], limits) == []
    ensures forall number: nat :: UnitsOf([], number) == []
  {
  }

  lemma LeafOutside(event: Event, limits: Limits, state: State)
    requires limits.Valid() && AcceptableLeaf(event) && state.paragraph.None?
    ensures var once := Once(BodyOf(limits), state, event);
            if event.Decl? && !event.valid then once.final.None?
            else once == Trace([Gate], Some(state))
  {
    hide ValidFrom, Pieces, HeadFault;
    assert [Gate] + [] == [Gate];
  }

  lemma {:induction false} NodeOutside(node: Node, depth: nat, limits: Limits, state: State)
    requires limits.Valid() && Acceptable([node], depth) && state.paragraph.None?
    requires state.number <= MAX_STRUCTURAL_UNITS
    ensures var walk := WalkNode(BodyOf(limits), state, node);
            && (walk.final.Some?
                <==> && NodeApart(node, PARAGRAPH, false)
                     && state.number + NodeCount(node, PARAGRAPH) <= MAX_STRUCTURAL_UNITS
                     && NodeDocumentDecodes(node, state.inText))
            && (walk.final.Some? ==>
                  && walk.final.value == State(state.number + NodeCount(node, PARAGRAPH), None,
                                               NodeFlagAfter(node, RUN_TEXT, state.inText))
                  && Emits(walk.plan, NodeHeardParagraphs(node, state.inText), state.number,
                           NodeCount(node, PARAGRAPH), limits))
    decreases node, 0
  {
    hide ValidFrom, React, Walk, Emits;
    match node {
      case Leaf(event) =>
        LeafOutside(event, limits, state);
        EmitsNothing(state.number, limits);
      case Element(name, head, children) =>
        if name == PARAGRAPH {
          ParagraphNode(node, depth, limits, state);
        } else {
          OtherNode(node, depth, limits, state);
        }
    }
  }

  /** Any other element adds nothing of its own. */
  lemma {:induction false} OtherNode(node: Node, depth: nat, limits: Limits, state: State)
    requires limits.Valid() && node.Element? && Acceptable(node.children, depth + 1)
    requires node.name != PARAGRAPH && state.paragraph.None?
    requires state.number <= MAX_STRUCTURAL_UNITS
    ensures var walk := WalkNode(BodyOf(limits), state, node);
            var flag := state.inText || node.name == RUN_TEXT;
            && (walk.final.Some?
                <==> && Apart(node.children, PARAGRAPH, false)
                     && state.number + Count(node.children, PARAGRAPH) <= MAX_STRUCTURAL_UNITS
                     && DocumentDecodes(node.children, flag))
            && (walk.final.Some? ==>
                  && walk.final.value == State(state.number + Count(node.children, PARAGRAPH), None,
                                               NodeFlagAfter(node, RUN_TEXT, state.inText))
                  && Emits(walk.plan, HeardParagraphs(node.children, flag), state.number,
                           Count(node.children, PARAGRAPH), limits))
    decreases node.children, 1
  {
    hide ValidFrom, Walk, WalkNode, Emits;
    var inside := state.(inText := state.inText || node.name == RUN_TEXT);
    WalkOutside(node.children, depth + 1, limits, inside);
    var inner := Walk(BodyOf(limits), inside, node.children);
    if inner.final.None? {
      ElementFails(BodyOf(limits), state, node);
    } else {
      var end := inner.final.value;
      ElementWalk(BodyOf(limits), state, node, inside, end,
                  end.(inText := node.name != RUN_TEXT && end.inText), []);
      EmitsSurrounded(inner.plan, HeardParagraphs(node.children, inside.inText), state.number,
                      Count(node.children, PARAGRAPH), limits);
    }
  }

  lemma EmitsSurrounded(
    plan: seq<Step>, paragraphs: seq<Text>, number: nat, count: nat, limits: Limits)
    requires limits.Valid() && Emits(plan, paragraphs, number, count, limits)
    ensures Emits([Gate] + plan + ([Gate] + []), paragraphs, number, count, limits)
  {
    hide ValidFrom, Pieces, PiecesOf, AllPieces, RejectsNothing, UnitsOf;
    Surrounded(plan, []);
    WithoutPieces([]);
    NothingToReject();
  }

  /** A paragraph element opens a paragraph, gathers its text, and emits its pieces. */
  lemma {:induction false} ParagraphNode(node: Node, depth: nat, limits: Limits, state: State)
    requires limits.Valid() && node.Element? && Acceptable(node.children, depth + 1)
    requires node.name == PARAGRAPH && state.paragraph.None?
    requires state.number <= MAX_STRUCTURAL_UNITS
    ensures var walk := WalkNode(BodyOf(limits), state, node);
            && (walk.final.Some?
                <==> && Apart(node.children, PARAGRAPH, true)
                     && state.number + NodeCount(node, PARAGRAPH) <= MAX_STRUCTURAL_UNITS
                     && Decodes(node.children, RUN_TEXT, state.inText))
            && (walk.final.Some? ==>
                  && walk.final.value == State(state.number + NodeCount(node, PARAGRAPH), None,
                                               NodeFlagAfter(node, RUN_TEXT, state.inText))
                  && Emits(walk.plan, [Heard(node.children, PARAGRAPH_TEXT, state.inText)],
                           state.number, NodeCount(node, PARAGRAPH), limits))
    decreases node.children, 1
  {
    hide ValidFrom, Pieces, Walk, WalkNode, Emits;
    if state.number + 1 > MAX_STRUCTURAL_UNITS {
      ElementFails(BodyOf(limits), state, node);
    } else {
      var text := Heard(node.children, PARAGRAPH_TEXT, state.inText);
      var atStart := State(state.number + 1, Some(NO_TEXT), state.inText);
      WalkInside(node.children, depth + 1, limits, atStart);
      var inner := Walk(BodyOf(limits), atStart, node.children);
      if inner.final.None? {
        ElementFails(BodyOf(limits), state, node);
      } else {
        NoneInside(node.children, PARAGRAPH);
        assert NO_TEXT + text == text;
        var end := inner.final.value;
        ElementWalk(BodyOf(limits), state, node, atStart, end, end.(paragraph := None),
                    UnitPieces(text, limits, ParagraphLabel(state.number + 1)));
        EmitsParagraph(inner.plan, text, state.number, limits);
      }
    }
  }

  lemma EmitsParagraph(plan: seq<Step>, text: Text, number: nat, limits: Limits)
    requires limits.Valid() && Silent(plan)
    ensures Emits([Gate] + plan
                  + ([Gate] + UnitPieces(text, limits, ParagraphLabel(number + 1))),
                  [text], number, 1, limits)
  {
    hide ValidFrom, Pieces, PiecesOf, AllPieces, UnitsOf, RejectsNothing;
    Surrounded(plan, UnitPieces(text, limits, ParagraphLabel(number + 1)));
    WithoutPieces(plan);
    OnlyPieces(text, 0, 0, limits, ParagraphLabel(number + 1));
    OneUnit(text, number, limits);
  }

  lemma OneUnit(text: Text, number: nat, limits: Limits)
    requires limits.Valid()
    ensures AllPieces(UnitsOf([text], number), limits)
         == UnitPieces(text, limits, ParagraphLabel(number + 1))
  {
    hide ValidFrom, Pieces;
    var units := UnitsOf([text], number);
    assert units[0] == Unit(0, text, ParagraphLabel(number + 1));
    assert units[1..] == [];
    NoUnits(limits);
  }

  /** What the parser takes: no paragraph inside a paragraph, no more paragraphs than are allowed, and
      everything that is heard decodes. */
  predicate Taken(tree: seq<Node>) {
    && Apart(tree, PARAGRAPH, false) && Count(tree, PARAGRAPH) <= MAX_STRUCTURAL_UNITS
    && DocumentDecodes(tree, false)
  }

  /** On every tree that the guard lets through, the parser takes its events exactly when the tree is
      as described by `Taken`, and refuses them otherwise; and then it emits exactly the chunks of
      what is heard in the paragraphs, in document order and numbered from 1. */
  lemma TakesTreeIff(tree: seq<Node>, limits: Limits)
    requires limits.Valid() && Readable(tree)
    ensures var plan := DocxPlan(Flatten(tree), limits);
            && (RejectsNothing(plan) <==> Taken(tree))
            && (RejectsNothing(plan) ==>
                  PiecesOf(plan) == AllPieces(UnitsOf(HeardParagraphs(tree, false), 0), limits))
  {
    hide ValidFrom, Pieces, Flatten, Walk, RejectsNothing, Apart, StreamPlan, PiecesOf, AllPieces,
         DocumentDecodes, HeardParagraphs, UnitsOf;
    var walk := Walk(BodyOf(limits), START, tree);
    TreePlan(BodyOf(limits), COMPLETE, START, tree);
    WalkOutside(tree, 0, limits, START);
    FlagNeverRises(tree, RUN_TEXT);
    if walk.final.None? {
      FailedWalkRejects(BodyOf(limits), START, tree);
      assert walk.plan + [] == walk.plan;
    } else {
      GateRejectsNothing();
      RejectsNothingConcat(walk.plan, [Gate]);
      PiecesOfConcat(walk.plan, [Gate]);
      WithoutPieces([Gate]);
    }
  }

  /** Whatever it contains, parsing a document succeeds if and only if the parser takes it, control
      never objects and the fragments of its paragraphs fit what is left of both limits; the chunks
      are then those fragments. */
  lemma ParsingSucceedsIff(tree: seq<Node>, limits: Limits, budget: Budget, sink: Sink)
    requires limits.Valid() && Readable(tree)
    requires |sink.chunks| <= budget.maxChunks && sink.outputBytes <= budget.maxOutputBytes
    ensures var plan := DocxPlan(Flatten(tree), limits);
            var pieces := AllPieces(UnitsOf(HeardParagraphs(tree, false), 0), limits);
            var run := Execute(plan, budget, sink);
            && (forall k :: 0 <= k < |pieces| ==> pieces[k].Piece?)
            && (run.error.None?
                <==> && Taken(tree) && Quiet(budget.control, sink.checks, |plan|)
                     && |sink.chunks| + |pieces| <= budget.maxChunks
                     && sink.outputBytes + BytesOf(pieces) <= budget.maxOutputBytes)
            && (run.error.None? ==>
                  && run.sink.chunks == sink.chunks + Numbered(pieces, |sink.chunks|)
                  && run.sink.outputBytes == sink.outputBytes + BytesOf(pieces))
  {
    hide ValidFrom, Pieces, Flatten, RejectsNothing, Taken, PiecesOf, AllPieces, StreamPlan, Execute,
         BytesOf, Quiet, UnitsOf, HeardParagraphs;
    var plan := DocxPlan(Flatten(tree), limits);
    var units := UnitsOf(HeardParagraphs(tree, false), 0);
    TakesTreeIff(tree, limits);
    AllPiecesArePieces(units, limits);
    BytesOfPieces(plan);
    SucceedsIff(plan, budget, sink);
    assert plan[..|plan|] == plan;
  }

  // The same document as a tree.

  /** The texts of the paragraphs of a forest, in document order: what stands under text elements,
      and tabs and breaks. */
  function Paragraphs(nodes: seq<Node>, inside: bool): seq<Text> {
    if nodes == [] then []
    else NodeParagraphs(nodes[0], inside) + Paragraphs(nodes[1..], inside)
  }

  function NodeParagraphs(node: Node, inside: bool): seq<Text> {
    match node
    case Element(name, _, children) =>
      if name == PARAGRAPH then [Under(children, PARAGRAPH_TEXT, inside)]
      else Paragraphs(children, inside || name == RUN_TEXT)
    case Leaf(_) => []
  }

  /** Nothing is lost in any paragraph: no text under a text element stands where the end of an inner
      text element has cleared the flag. */
  predicate DocumentKept(nodes: seq<Node>, inside: bool, flag: bool) {
    nodes == []
    || (NodeDocumentKept(nodes[0], inside, flag)
        && DocumentKept(nodes[1..], inside, NodeFlagAfter(nodes[0], RUN_TEXT, flag)))
  }

  predicate NodeDocumentKept(node: Node, inside: bool, flag: bool) {
    match node
    case Element(name, _, children) =>
      if name == PARAGRAPH then Kept(children, RUN_TEXT, inside, flag)
      else DocumentKept(children, inside || name == RUN_TEXT, flag || name == RUN_TEXT)
    case Leaf(_) => true
  }

  lemma {:induction false} HeardParagraphsIff(nodes: seq<Node>, inside: bool, flag: bool)
    requires flag ==> inside
    ensures Compare(HeardParagraphs(nodes, flag), Paragraphs(nodes, inside),
                    DocumentKept(nodes, inside, flag))
    decreases nodes
  {
    hide Compare;
    if nodes == [] {
      CompareNothing();
    } else {
      var after := NodeFlagAfter(nodes[0], RUN_TEXT, flag);
      NodeFlagNeverRises(nodes[0], RUN_TEXT);
      NodeHeardParagraphsIff(nodes[0], inside, flag);
      HeardParagraphsIff(nodes[1..], inside, after);
      CompareConcat(NodeHeardParagraphs(nodes[0], flag), NodeParagraphs(nodes[0], inside),
                    NodeDocumentKept(nodes[0], inside, flag),
                    HeardParagraphs(nodes[1..], after), Paragraphs(nodes[1..], inside),
                    DocumentKept(nodes[1..], inside, after));
    }
  }

  lemma {:induction false} NodeHeardParagraphsIff(node: Node, inside: bool, flag: bool)
    requires flag ==> inside
    ensures Compare(NodeHeardParagraphs(node, flag), NodeParagraphs(node, inside),
                    NodeDocumentKept(node, inside, flag))
    decreases node
  {
    hide Compare;
    match node {
      case Leaf(_) =>
        CompareNothing();
      case Element(name, _, children) =>
        if name == PARAGRAPH {
          HeardIsUnderIff(children, PARAGRAPH_TEXT, inside, flag);
          CompareOne(Heard(children, PARAGRAPH_TEXT, flag),
                     Under(children, PARAGRAPH_TEXT, inside),
                     Kept(children, RUN_TEXT, inside, flag));
        } else {
          HeardParagraphsIff(children, inside || name == RUN_TEXT, flag || name == RUN_TEXT);
        }
    }
  }

  lemma LabelsAreIndexed(number: nat)
    ensures Indexed(ParagraphLabel(number))
  {
  }

  lemma {:induction false} TotalOfUnits(texts: seq<Text>, number: nat)
    ensures AllIndexed(UnitsOf(texts, number))
    ensures TotalText(UnitsOf(texts, number)) == TotalLength(texts)
    decreases |texts|
  {
    hide ValidFrom, Indexed;
    var units := UnitsOf(texts, number);
    forall u | 0 <= u < |units| ensures Indexed(units[u].name) {
      LabelsAreIndexed(number + u + 1);
    }
    if texts != [] {
      TotalOfUnits(texts[1..], number + 1);
      assert units[1..] == UnitsOf(texts[1..], number + 1);
    }
  }

  /** Streaming against extracting from the tree: a document that is taken yields exactly the chunks
      of the texts of the tree's paragraphs if and only if nothing is lost in it. */
  lemma StreamEqualsTreeIff(tree: seq<Node>, limits: Limits)
    requires limits.Valid() && Readable(tree) && Taken(tree)
    ensures var plan := DocxPlan(Flatten(tree), limits);
            PiecesOf(plan) == AllPieces(UnitsOf(Paragraphs(tree, false), 0), limits)
            <==> DocumentKept(tree, false, false)
  {
    hide ValidFrom, PiecesOf, AllPieces, StreamPlan, Flatten, UnitsOf, RejectsNothing, Taken,
         HeardParagraphs, Paragraphs, DocumentKept;
    var heard, texts := HeardParagraphs(tree, false), Paragraphs(tree, false);
    TakesTreeIff(tree, limits);
    HeardParagraphsIff(tree, false, false);
    TotalOfUnits(heard, 0);
    TotalOfUnits(texts, 0);
    if PiecesOf(DocxPlan(Flatten(tree), limits)) == AllPieces(UnitsOf(texts, 0), limits) {
      SamePiecesSameLength(UnitsOf(heard, 0), UnitsOf(texts, 0), limits);
    }
  }

  /** With no text element inside a text element nothing is lost. */
  lemma {:induction false} PlainIsKept(nodes: seq<Node>, inside: bool)
    requires Apart(nodes, RUN_TEXT, inside)
    ensures DocumentKept(nodes, inside, inside) && FlagAfter(nodes, RUN_TEXT, inside) == inside
    decreases nodes
  {
    if nodes != [] {
      NodePlainIsKept(nodes[0], inside);
      PlainIsKept(nodes[1..], inside);
    }
  }

  lemma {:induction false} NodePlainIsKept(node: Node, inside: bool)
    requires NodeApart(node, RUN_TEXT, inside)
    ensures NodeDocumentKept(node, inside, inside)
    ensures NodeFlagAfter(node, RUN_TEXT, inside) == inside
    decreases node
  {
    NodeApartIsKept(node, RUN_TEXT, inside);
    if node.Element? {
      if node.name == PARAGRAPH {
        ApartIsKept(node.children, RUN_TEXT, inside);
      } else {
        PlainIsKept(node.children, inside || node.name == RUN_TEXT);
      }
    }
  }

  const DOCUMENT := Name(Wordprocessing, "document")

  /** A document with one paragraph, in which a letter follows a text element inside a text element. The
      head of the root element, which declares the namespace, is left open. */
  function Lossy(root: Head, letter: Text): seq<Node> {
    [Element(DOCUMENT, root, [LossyParagraph(letter)])]
  }

  function LossyParagraph(letter: Text): Node {
    Element(PARAGRAPH, PLAIN_HEAD, [Nested(RUN_TEXT, letter)])
  }

  /** The parser takes that document and emits nothing, although the letter is in the tree. */
  lemma NestedTextIsLost(root: Head, letter: Text, limits: Limits)
    requires limits.Valid() && 0 < |letter| <= MAX_XML_TEXT_NODE_BYTES && HeadFault(root).None?
    ensures var tree := Lossy(root, letter);
            var plan := DocxPlan(Flatten(tree), limits);
            && Readable(tree) && RejectsNothing(plan) && PiecesOf(plan) == []
            && Paragraphs(tree, false) == [letter]
            && PiecesOf(plan) != AllPieces(UnitsOf(Paragraphs(tree, false), 0), limits)
  {
    hide ValidFrom, PiecesOf, StreamPlan, Pieces, RejectsNothing, AllPieces, UnitsOf, Lossy, Flatten;
    var tree := Lossy(root, letter);
    LossyFacts(root, letter);
    TakesTreeIff(tree, limits);
    StreamEqualsTreeIff(tree, limits);
    HeardParagraphsIff(tree, false, false);
    OneUnit(NO_TEXT, 0, limits);
    EmptyUnit(limits, ParagraphLabel(1));
  }

  lemma EmptyUnit(limits: Limits, name: Label)
    requires limits.Valid()
    ensures UnitPieces(NO_TEXT, limits, name) == []
  {
  }

  lemma LossyParagraphFacts(letter: Text)
    requires 0 < |letter| <= MAX_XML_TEXT_NODE_BYTES
    ensures var node := LossyParagraph(letter);
            && Acceptable([node], 1) && |Flatten([node])| == 7
            && NodeApart(node, PARAGRAPH, false) && NodeCount(node, PARAGRAPH) == 1
            && NodeDocumentDecodes(node, false)
            && NodeHeardParagraphs(node, false) == [NO_TEXT]
            && NodeParagraphs(node, false) == [letter]
  {
    hide ValidFrom;
    var inner, node := Nested(RUN_TEXT, letter), LossyParagraph(letter);
    NestedIsLost(PARAGRAPH_TEXT, letter);
    NestedIsAcceptable(RUN_TEXT, letter, 2);
    HeardInTwo(inner, inner, PARAGRAPH_TEXT, false);
    NestedHasNo(RUN_TEXT, letter, PARAGRAPH);
    hide Nested;
    OneNode(inner, PARAGRAPH, true);
    DecodesOne(inner, RUN_TEXT, false);
    assert [node][1..] == [] && [inner][1..] == [];
    assert HeadFault(PLAIN_HEAD).None?;
    assert |FlattenNode(node)| == 7;
  }

  lemma LossyFacts(root: Head, letter: Text)
    requires 0 < |letter| <= MAX_XML_TEXT_NODE_BYTES && HeadFault(root).None?
    ensures var tree := Lossy(root, letter);
            && Readable(tree) && Taken(tree)
            && HeardParagraphs(tree, false) == [NO_TEXT] && Paragraphs(tree, false) == [letter]
  {
    hide ValidFrom, HeadFault, LossyParagraph, NodeHeardParagraphs, NodeParagraphs,
         NodeDocumentDecodes;
    var node, tree := LossyParagraph(letter), Lossy(root, letter);
    LossyParagraphFacts(letter);
    RootIsReadable(DOCUMENT, root, node);
    OneChild(node);
    OneChild(tree[0]);
    RootAddsNothing(root, node);
  }

  lemma OneChild(node: Node)
    ensures HeardParagraphs([node], false) == NodeHeardParagraphs(node, false)
    ensures Paragraphs([node], false) == NodeParagraphs(node, false)
    ensures DocumentDecodes([node], false) <==> NodeDocumentDecodes(node, false)
    ensures Apart([node], PARAGRAPH, false) <==> NodeApart(node, PARAGRAPH, false)
    ensures Count([node], PARAGRAPH) == NodeCount(node, PARAGRAPH)
  {
    assert [node][1..] == [];
    assert NodeHeardParagraphs(node, false) + [] == NodeHeardParagraphs(node, false);
    assert NodeParagraphs(node, false) + [] == NodeParagraphs(node, false);
  }

  lemma RootAddsNothing(root: Head, child: Node)
    ensures var node := Element(DOCUMENT, root, [child]);
            && NodeHeardParagraphs(node, false) == HeardParagraphs([child], false)
            && NodeParagraphs(node, false) == Paragraphs([child], false)
            && (NodeDocumentDecodes(node, false) <==> DocumentDecodes([child], false))
            && (NodeApart(node, PARAGRAPH, false) <==> Apart([child], PARAGRAPH, false))
            && NodeCount(node, PARAGRAPH) == Count([child], PARAGRAPH)
  {
    assert "document" != "p" && "document" != "t" by {
      assert |"document"| != |"p"|;
    }
  }

  /** All that the parser itself objects to is invalid XML, but for one paragraph too many. */
  lemma ObjectsWith(limits: Limits, state: State, event: Event)
    requires limits.Valid() && React(limits, state, event).Fail?
    ensures React(limits, state, event).error
            == if event.Start? && state.paragraph.None? then OoxmlStructureLimitExceeded
               else InvalidOoxmlXml
    ensures event.Start? && state.paragraph.None? ==> state.number >= 100_000
  {
    hide Pieces, ValidFrom;
  }

  lemma ChecksMade(events: seq<Event>, limits: Limits)
    requires limits.Valid() && RejectsNothing(DocxPlan(events, limits))
    ensures |DocxPlan(events, limits)| == |events| + 1 + |PiecesOf(DocxPlan(events, limits))|
  {
    hide StreamPlan, RejectsNothing, PiecesOf, ValidFrom, UnitPieces;
    forall state: State, event: Event | React(limits, state, event).Next?
      ensures PiecesOf(React(limits, state, event).emitted) == React(limits, state, event).emitted
    {
      WithoutPieces([]);
      if event.End? && event.name == PARAGRAPH {
        UnitKeepsPieces(state.paragraph.value, limits, ParagraphLabel(state.number));
      }
    }
    ChecksOfStream(BodyOf(limits), COMPLETE, START, events);
  }
}
