/**
 The XML event stream the OOXML parsers read, the guard that watches it, and its tree. A parser is
 a `Body` that reacts to one event; `Run` feeds it a stream under the guard, `Walk` feeds it a tree,
 and on the events of an acceptable tree the two agree.
 */
module Xml {
  import opened Wrappers
  import opened Utf8
  import opened Execution

  const MAX_XML_DEPTH: nat := 128
  const MAX_XML_ATTRIBUTES: nat := 128
  const MAX_XML_EVENTS: nat := 1_000_000
  const MAX_XML_TEXT_NODE_BYTES: nat := 256 * 1024
  const MAX_STRUCTURAL_UNITS: nat := 100_000
  const MAX_NAME_BYTES: nat := 256

  datatype Namespace = Wordprocessing | Drawing | Spreadsheet | Other | Undeclared

  datatype Name = Name(namespace: Namespace, local: string)

  type Scalar = c: nat | IsScalar(c) witness 0

  /** An attribute as the reader yields it; `value` is None when it does not decode. */
  datatype Attribute =
    | BadAttribute
    | Attribute(key: string, keyBytes: nat, valueBytes: nat, value: Option<Text>)

  datatype Head = Head(nameBytes: nat, attributes: seq<Attribute>)

  datatype Reference = BadReference | CharacterReference(c: Scalar) | EntityReference(name: string)

  datatype Event =
    | Start(name: Name, head: Head)
    | Empty(name: Name, head: Head)
    | End(name: Name)
    | Characters(rawBytes: nat, decoded: Option<Text>)
    | CData(rawBytes: nat, decoded: Option<Text>)
    | GeneralRef(reference: Reference)
    | Decl(valid: bool)
    | Comment
    | ProcessingInstruction
    | DocType
    | Malformed

  /** `is_xml_10_character`. */
  predicate IsXmlCharacter(c: nat) {
    || c == 0x9 || c == 0xA || c == 0xD
    || 0x20 <= c <= 0xD7FF || 0xE000 <= c <= 0xFFFD || 0x1_0000 <= c <= 0x10_FFFF
  }

  function CharacterText(c: Scalar): Text {
    EncodeValid(c);
    Encode(c)
  }

  /** `decoded_reference`: a permitted character, or one of the five predefined entities. */
  function DecodedReference(reference: Reference): Option<Text> {
    match reference
    case BadReference => None
    case CharacterReference(c) => if IsXmlCharacter(c) then Some(CharacterText(c)) else None
    case EntityReference(name) =>
      if name == "amp" then Some(CharacterText(0x26))
      else if name == "lt" then Some(CharacterText(0x3C))
      else if name == "gt" then Some(CharacterText(0x3E))
      else if name == "apos" then Some(CharacterText(0x27))
      else if name == "quot" then Some(CharacterText(0x22))
      else None
  }

  /** The text an event carries: None when it does not decode, nothing for other events. */
  function TextOf(event: Event): Option<Text> {
    match event
    case Characters(_, decoded) => decoded
    case CData(_, decoded) => decoded
    case GeneralRef(reference) => DecodedReference(reference)
    case _ => Some([])
  }

  predicate CarriesText(event: Event) {
    event.Characters? || event.CData? || event.GeneralRef?
  }

  /** The attribute loop of `validate_start`, `count` attributes in. */
  function AttributeFault(attributes: seq<Attribute>, count: nat): Option<ExtractionError> {
    if attributes == [] then None
    else if attributes[0].BadAttribute? then Some(InvalidOoxmlXml)
    else if count + 1 > MAX_XML_ATTRIBUTES
            || attributes[0].keyBytes > MAX_NAME_BYTES
            || attributes[0].valueBytes > MAX_XML_TEXT_NODE_BYTES
    then Some(OoxmlStructureLimitExceeded)
    else AttributeFault(attributes[1..], count + 1)
  }

  /** `validate_start`. */
  function HeadFault(head: Head): Option<ExtractionError> {
    if head.nameBytes > MAX_NAME_BYTES then Some(OoxmlStructureLimitExceeded)
    else AttributeFault(head.attributes, 0)
  }

  function Push(content: Text, more: Text): Text {
    ConcatValid(content, more);
    content + more
  }

  lemma PushNothing(content: Text)
    ensures Push(content, []) == content
  {
    assert content + [] == content;
  }

  datatype Guard = Guard(depth: nat, events: nat)

  /** What stops an event before the parser sees it: an error of the reader, an undeclared
      prefix, and then the guard. */
  function AdmissionFault(guard: Guard, event: Event): Option<ExtractionError> {
    if event.Malformed? then Some(InvalidOoxmlXml)
    else if (event.Start? || event.Empty? || event.End?) && event.name.namespace.Undeclared? then
      Some(InvalidOoxmlXml)
    else GuardFault(guard, event)
  }

  /** `XmlGuard::observe`. */
  function GuardFault(guard: Guard, event: Event): Option<ExtractionError> {
    if guard.events + 1 > MAX_XML_EVENTS then Some(OoxmlStructureLimitExceeded)
    else match event
      case Start(_, head) =>
        if HeadFault(head).Some? then HeadFault(head)
        else if guard.depth + 1 > MAX_XML_DEPTH then Some(OoxmlStructureLimitExceeded)
        else None
      case Empty(_, head) => HeadFault(head)
      case End(_) => if guard.depth == 0 then Some(InvalidOoxmlXml) else None
      case Characters(rawBytes, _) =>
        if rawBytes > MAX_XML_TEXT_NODE_BYTES then Some(OoxmlStructureLimitExceeded) else None
      case CData(rawBytes, _) =>
        if rawBytes > MAX_XML_TEXT_NODE_BYTES then Some(OoxmlStructureLimitExceeded) else None
      case ProcessingInstruction => Some(InvalidOoxmlXml)
      case DocType => Some(InvalidOoxmlXml)
      case _ => None
  }

  function Observed(guard: Guard, event: Event): Guard
    requires GuardFault(guard, event).None?
  {
    Guard(if event.Start? then guard.depth + 1 else if event.End? then guard.depth - 1
          else guard.depth, guard.events + 1)
  }

  /** `XmlGuard`. */
  class XmlGuard {
    var depth: nat
    var events: nat

    constructor ()
      ensures State() == Guard(0, 0)
    {
      depth, events := 0, 0;
    }

    function State(): Guard
      reads this
    {
      Guard(depth, events)
    }

    method Observe(event: Event) returns (fault: Option<ExtractionError>)
      modifies this
      ensures fault == GuardFault(old(State()), event)
      ensures fault.None? ==> State() == Observed(old(State()), event)
    {
      events := events + 1;
      if events > MAX_XML_EVENTS {
        return Some(OoxmlStructureLimitExceeded);
      }
      match event {
        case Start(_, head) =>
          if HeadFault(head).Some? {
            return HeadFault(head);
          }
          depth := depth + 1;
          if depth > MAX_XML_DEPTH {
            return Some(OoxmlStructureLimitExceeded);
          }
        case Empty(_, head) =>
          return HeadFault(head);
        case End(_) =>
          if depth == 0 {
            return Some(InvalidOoxmlXml);
          }
          depth := depth - 1;
        case Characters(rawBytes, _) =>
          if rawBytes > MAX_XML_TEXT_NODE_BYTES {
            return Some(OoxmlStructureLimitExceeded);
          }
        case CData(rawBytes, _) =>
          if rawBytes > MAX_XML_TEXT_NODE_BYTES {
            return Some(OoxmlStructureLimitExceeded);
          }
        case ProcessingInstruction =>
          return Some(InvalidOoxmlXml);
        case DocType =>
          return Some(InvalidOoxmlXml);
        case _ =>
      }
      return None;
    }

    /** The end of the stream is an event too. */
    method ObserveEof() returns (fault: Option<ExtractionError>)
      modifies this
      ensures fault == EofFault(old(State()))
      ensures depth == old(depth)
    {
      events := events + 1;
      return if events > MAX_XML_EVENTS then Some(OoxmlStructureLimitExceeded) else None;
    }
  }

  function EofFault(guard: Guard): Option<ExtractionError> {
    if guard.events + 1 > MAX_XML_EVENTS then Some(OoxmlStructureLimitExceeded) else None
  }

  /** How a parser reacts to one event: an error, or a new state and the pieces it emits. */
  datatype Progress<S> = Fail(error: ExtractionError) | Next(state: S, emitted: seq<Step>)

  type Body<!S> = (S, Event) -> Progress<S>

  /** The steps a parser has taken, and its state unless it failed. */
  datatype Trace<S> = Trace(plan: seq<Step>, final: Option<S>)

  datatype Watched<S> = Watched(guard: Guard, state: S)

  /** One event of a stream: a control check, the guard, and the parser. */
  function Once<S>(body: Body<S>, state: S, event: Event): Trace<S> {
    match body(state, event)
    case Fail(error) => Trace([Gate, Reject(error)], None)
    case Next(next, emitted) => Trace([Gate] + emitted, Some(next))
  }

  function WatchedOnce<S>(body: Body<S>, guard: Guard, state: S, event: Event)
    : Trace<Watched<S>>
  {
    var fault := AdmissionFault(guard, event);
    if fault.Some? then Trace([Gate, Reject(fault.value)], None)
    else Watch(Observed(guard, event), Once(body, state, event))
  }

  function Watch<S>(guard: Guard, trace: Trace<S>): Trace<Watched<S>> {
    Trace(trace.plan,
          if trace.final.None? then None else Some(Watched(guard, trace.final.value)))
  }

  /** The run of a parser over a stream of events. */
  function Run<S>(body: Body<S>, guard: Guard, state: S, events: seq<Event>)
    : Trace<Watched<S>>
    decreases |events|
  {
    if events == [] then Trace([], Some(Watched(guard, state)))
    else
      var first := WatchedOnce(body, guard, state, events[0]);
      if first.final.None? then first
      else
        var rest := Run(body, first.final.value.guard, first.final.value.state, events[1..]);
        Trace(first.plan + rest.plan, rest.final)
  }

  lemma {:induction false} RunConcat<S>(
    body: Body<S>, guard: Guard, state: S, a: seq<Event>, b: seq<Event>)
    ensures var first := Run(body, guard, state, a);
            Run(body, guard, state, a + b)
            == if first.final.None? then first
               else
                 var rest := Run(body, first.final.value.guard, first.final.value.state, b);
                 Trace(first.plan + rest.plan, rest.final)
    decreases |a|
  {
    if a == [] {
      assert a + b == b;
      var rest := Run(body, guard, state, b);
      assert [] + rest.plan == rest.plan;
    } else {
      assert (a + b)[0] == a[0] && (a + b)[1..] == a[1..] + b;
      var first := WatchedOnce(body, guard, state, a[0]);
      if first.final.Some? {
        var next := first.final.value;
        RunConcat(body, next.guard, next.state, a[1..], b);
        var middle := Run(body, next.guard, next.state, a[1..]);
        if middle.final.Some? {
          var rest := Run(body, middle.final.value.guard, middle.final.value.state, b);
          assert first.plan + (middle.plan + rest.plan) == first.plan + middle.plan + rest.plan;
        }
      }
    }
  }

  /** The depth after a stream, None when it closes more than it opened. */
  function DepthAfter(depth: nat, events: seq<Event>): Option<nat>
    decreases |events|
  {
    if events == [] then Some(depth)
    else if events[0].Start? then DepthAfter(depth + 1, events[1..])
    else if !events[0].End? then DepthAfter(depth, events[1..])
    else if depth == 0 then None
    else DepthAfter(depth - 1, events[1..])
  }

  /** No parser gets through a stream that closes more elements than are open. */
  lemma {:induction false} RunTracksDepth<S>(
    body: Body<S>, guard: Guard, state: S, events: seq<Event>)
    ensures var run := Run(body, guard, state, events);
            run.final.Some? ==>
              DepthAfter(guard.depth, events) == Some(run.final.value.guard.depth)
    decreases |events|
  {
    if events != [] {
      var first := WatchedOnce(body, guard, state, events[0]);
      if first.final.Some? {
        RunTracksDepth(body, first.final.value.guard, first.final.value.state, events[1..]);
      }
    }
  }

  /** The end of a stream: one more check, the guard, what the parser demands of its last state,
      and that all elements are closed. */
  function EndPlan(guard: Guard, complete: bool): seq<Step> {
    [Gate] + if EofFault(guard).Some? then [Reject(EofFault(guard).value)]
             else if !complete || guard.depth != 0 then [Reject(InvalidOoxmlXml)]
             else []
  }

  /** A parser applied to a whole stream. */
  function StreamPlan<S>(
    body: Body<S>, complete: S -> bool, guard: Guard, state: S, events: seq<Event>): seq<Step>
  {
    var run := Run(body, guard, state, events);
    if run.final.None? then run.plan
    else run.plan + EndPlan(run.final.value.guard, complete(run.final.value.state))
  }

  /** A stream that closes more elements than are open, or leaves some open, is always refused. */
  lemma UnbalancedIsRefused<S>(
    body: Body<S>, complete: S -> bool, state: S, events: seq<Event>)
    requires DepthAfter(0, events) != Some(0)
    ensures !RejectsNothing(StreamPlan(body, complete, Guard(0, 0), state, events))
  {
    hide Run, DepthAfter;
    var run := Run(body, Guard(0, 0), state, events);
    RunTracksDepth(body, Guard(0, 0), state, events);
    if run.final.None? {
      FailedRunRejects(body, Guard(0, 0), state, events);
    } else {
      var guard := run.final.value.guard;
      var end := EndPlan(guard, complete(run.final.value.state));
      assert end[1].Reject?;
      RejectsNothingConcat(run.plan, end);
    }
  }

  lemma {:induction false} FailedRunRejects<S>(
    body: Body<S>, guard: Guard, state: S, events: seq<Event>)
    requires Run(body, guard, state, events).final.None?
    ensures !RejectsNothing(Run(body, guard, state, events).plan)
    decreases |events|
  {
    var first := WatchedOnce(body, guard, state, events[0]);
    if first.final.None? {
      assert first.plan[1].Reject?;
    } else {
      var next := first.final.value;
      FailedRunRejects(body, next.guard, next.state, events[1..]);
      RejectsNothingConcat(first.plan, Run(body, next.guard, next.state, events[1..]).plan);
    }
  }

  /** An element with content between explicit tags, or a single event. */
  datatype Node = Element(name: Name, head: Head, children: seq<Node>) | Leaf(event: Event)

  function Flatten(nodes: seq<Node>): seq<Event> {
    if nodes == [] then [] else FlattenNode(nodes[0]) + Flatten(nodes[1..])
  }

  function FlattenNode(node: Node): seq<Event> {
    match node
    case Element(name, head, children) => [Start(name, head)] + Flatten(children) + [End(name)]
    case Leaf(event) => [event]
  }

  /** A tree no guard objects to, on top of `depth` open elements. */
  predicate Acceptable(nodes: seq<Node>, depth: nat) {
    nodes == []
    || (&& Acceptable(nodes[1..], depth)
        && match nodes[0]
           case Element(name, head, children) =>
             && !name.namespace.Undeclared? && HeadFault(head).None?
             && depth + 1 <= MAX_XML_DEPTH && Acceptable(children, depth + 1)
           case Leaf(event) => AcceptableLeaf(event))
  }

  predicate AcceptableLeaf(event: Event) {
    match event
    case Empty(name, head) => !name.namespace.Undeclared? && HeadFault(head).None?
    case Characters(rawBytes, _) => rawBytes <= MAX_XML_TEXT_NODE_BYTES
    case CData(rawBytes, _) => rawBytes <= MAX_XML_TEXT_NODE_BYTES
    case GeneralRef(_) => true
    case Decl(_) => true
    case Comment => true
    case _ => false
  }

  /** A tree the guard lets through from the first event to the end of the stream. */
  predicate Readable(tree: seq<Node>) {
    Acceptable(tree, 0) && |Flatten(tree)| < MAX_XML_EVENTS
  }

  /** A root element, with whatever head, around one child. */
  lemma RootIsReadable(name: Name, root: Head, child: Node)
    requires !name.namespace.Undeclared? && HeadFault(root).None?
    requires Acceptable([child], 1) && |Flatten([child])| + 2 < MAX_XML_EVENTS
    ensures Readable([Element(name, root, [child])])
  {
    hide HeadFault;
    var tree := [Element(name, root, [child])];
    assert tree[1..] == [] && Acceptable(tree[1..], 0);
    assert Acceptable(tree, 0);
    assert |FlattenNode(tree[0])| == |Flatten([child])| + 2;
    assert |Flatten(tree)| == |FlattenNode(tree[0])|;
  }

  /** The run of a parser over a tree, with nothing in its way. */
  function Walk<S>(body: Body<S>, state: S, nodes: seq<Node>): Trace<S> {
    if nodes == [] then Trace([], Some(state))
    else
      var first := WalkNode(body, state, nodes[0]);
      if first.final.None? then first
      else
        var rest := Walk(body, first.final.value, nodes[1..]);
        Trace(first.plan + rest.plan, rest.final)
  }

  function WalkNode<S>(body: Body<S>, state: S, node: Node): Trace<S> {
    match node
    case Leaf(event) => Once(body, state, event)
    case Element(name, head, children) =>
      var atStart := Once(body, state, Start(name, head));
      if atStart.final.None? then atStart
      else
        var inner := Walk(body, atStart.final.value, children);
        if inner.final.None? then Trace(atStart.plan + inner.plan, None)
        else
          var closed := Once(body, inner.final.value, End(name));
          Trace(atStart.plan + inner.plan + closed.plan, closed.final)
  }

  lemma LeafWalk<S>(body: Body<S>, state: S, event: Event)
    ensures WalkNode(body, state, Leaf(event)) == Once(body, state, event)
  {
  }

  /** The walk of an element whose tags are both taken. */
  lemma ElementWalk<S>(
    body: Body<S>, state: S, node: Node, inside: S, end: S, closed: S, emitted: seq<Step>)
    requires node.Element?
    requires body(state, Start(node.name, node.head)) == Next(inside, [])
    requires Walk(body, inside, node.children).final == Some(end)
    requires body(end, End(node.name)) == Next(closed, emitted)
    ensures WalkNode(body, state, node)
         == Trace([Gate] + Walk(body, inside, node.children).plan + ([Gate] + emitted),
                  Some(closed))
  {
    hide Walk;
    assert [Gate] + [] == [Gate];
  }

  /** The walk of an element that is refused by its start tag, inside it, or by its end tag. */
  lemma ElementFails<S>(body: Body<S>, state: S, node: Node)
    requires node.Element?
    requires var start := body(state, Start(node.name, node.head));
             start.Next? ==>
               var inner := Walk(body, start.state, node.children).final;
               inner.Some? ==> body(inner.value, End(node.name)).Fail?
    ensures WalkNode(body, state, node).final.None?
  {
    hide Walk;
  }

  function Later(guard: Guard, n: nat): Guard {
    Guard(guard.depth, guard.events + n)
  }

  /** On the events of an acceptable tree, the guarded run over the stream is the walk over the
      tree; the guard ends at the depth where it began. */
  lemma {:induction false} RunFlattens<S>(
    body: Body<S>, guard: Guard, state: S, nodes: seq<Node>)
    requires Acceptable(nodes, guard.depth)
    requires guard.events + |Flatten(nodes)| <= MAX_XML_EVENTS
    ensures Run(body, guard, state, Flatten(nodes))
         == Watch(Later(guard, |Flatten(nodes)|), Walk(body, state, nodes))
    decreases nodes
  {
    if nodes != [] {
      var node, tail := nodes[0], nodes[1..];
      var own := FlattenNode(node);
      assert Flatten(nodes) == own + Flatten(tail);
      NodeFlattens(body, guard, state, node);
      RunConcat(body, guard, state, own, Flatten(tail));
      var first := WalkNode(body, state, node);
      if first.final.Some? {
        RunFlattens(body, Later(guard, |own|), first.final.value, tail);
      }
    }
  }

  lemma {:induction false} NodeFlattens<S>(body: Body<S>, guard: Guard, state: S, node: Node)
    requires Acceptable([node], guard.depth)
    requires guard.events + |FlattenNode(node)| <= MAX_XML_EVENTS
    ensures Run(body, guard, state, FlattenNode(node))
         == Watch(Later(guard, |FlattenNode(node)|), WalkNode(body, state, node))
    decreases node
  {
    hide Run, Walk, Apart;
    match node {
      case Leaf(event) =>
        RunOne(body, guard, state, event);
      case Element(name, head, children) =>
        var start, inside := Start(name, head), Flatten(children);
        RunConcat(body, guard, state, [start] + inside, [End(name)]);
        RunConcat(body, guard, state, [start], inside);
        RunOne(body, guard, state, start);
        var first := Once(body, state, start);
        var within := Guard(guard.depth + 1, guard.events + 1);
        if first.final.Some? {
          RunFlattens(body, within, first.final.value, children);
          var inner := Walk(body, first.final.value, children);
          if inner.final.Some? {
            RunOne(body, Later(within, |inside|), inner.final.value, End(name));
          }
        }
    }
  }

  lemma RunOne<S>(body: Body<S>, guard: Guard, state: S, event: Event)
    requires AdmissionFault(guard, event).None?
    ensures Run(body, guard, state, [event])
         == Watch(Observed(guard, event), Once(body, state, event))
  {
    var first := WatchedOnce(body, guard, state, event);
    assert [event][1..] == [];
    if first.final.Some? {
      assert first.plan + [] == first.plan;
    }
  }

  /** The plan of a parser over an acceptable tree: its walk, and the end of the stream. */
  lemma TreePlan<S>(body: Body<S>, complete: S -> bool, state: S, tree: seq<Node>)
    requires Readable(tree)
    ensures var walk := Walk(body, state, tree);
            StreamPlan(body, complete, Guard(0, 0), state, Flatten(tree))
            == walk.plan + if walk.final.None? then []
                           else if complete(walk.final.value) then [Gate]
                           else [Gate, Reject(InvalidOoxmlXml)]
  {
    hide Flatten, Acceptable, Walk, Run;
    RunFlattens(body, Guard(0, 0), state, tree);
    var walk := Walk(body, state, tree);
    assert walk.plan + [] == walk.plan;
    assert [Gate] + [] == [Gate];
  }

  /** One turn of a parser loop, read off its plan. */
  lemma StreamTurn<S>(
    body: Body<S>, complete: S -> bool, guard: Guard, state: S, events: seq<Event>,
    budget: Budget, sink: Sink)
    requires events != []
    ensures var checked := Advance(Gate, sink);
            var fault := AdmissionFault(guard, events[0]);
            Execute(StreamPlan(body, complete, guard, state, events), budget, sink)
            == if budget.control(sink.checks).Some? then
                 Outcome(checked, Some(Stopped(budget.control(sink.checks).value)))
               else if fault.Some? then Outcome(checked, fault)
               else
                 match body(state, events[0])
                 case Fail(error) => Outcome(checked, Some(error))
                 case Next(next, emitted) =>
                   var own := Execute(emitted, budget, checked);
                   if own.error.Some? then own
                   else Execute(StreamPlan(body, complete, Observed(guard, events[0]), next,
                                           events[1..]), budget, own.sink)
  {
    hide Execute;
    var fault := AdmissionFault(guard, events[0]);
    var checked := Advance(Gate, sink);
    if fault.Some? {
      RefuseAfterCheck(fault.value, budget, sink);
    } else {
      match body(state, events[0]) {
        case Fail(error) =>
          RefuseAfterCheck(error, budget, sink);
        case Next(next, emitted) =>
          var rest := StreamPlan(body, complete, Observed(guard, events[0]), next, events[1..]);
          assert StreamPlan(body, complete, guard, state, events) == [Gate] + (emitted + rest);
          ExecuteCons(Gate, emitted + rest, budget, sink);
          ExecuteConcat(emitted, rest, budget, checked);
      }
    }
  }

  lemma EndTurn<S>(
    body: Body<S>, complete: S -> bool, guard: Guard, state: S, budget: Budget, sink: Sink)
    ensures var checked := Advance(Gate, sink);
            Execute(StreamPlan(body, complete, guard, state, []), budget, sink)
            == Outcome(checked,
                 if budget.control(sink.checks).Some? then
                   Some(Stopped(budget.control(sink.checks).value))
                 else if EofFault(guard).Some? then EofFault(guard)
                 else if !complete(state) || guard.depth != 0 then Some(InvalidOoxmlXml)
                 else None)
  {
    hide Execute;
    var end := EndPlan(guard, complete(state));
    assert StreamPlan(body, complete, guard, state, []) == end;
    if EofFault(guard).Some? {
      assert end == [Gate, Reject(EofFault(guard).value)];
      RefuseAfterCheck(EofFault(guard).value, budget, sink);
    } else if !complete(state) || guard.depth != 0 {
      assert end == [Gate, Reject(InvalidOoxmlXml)];
      RefuseAfterCheck(InvalidOoxmlXml, budget, sink);
    } else {
      assert end == [Gate] + [];
      ExecuteCons(Gate, [], budget, sink);
      ExecuteNothing(budget, Advance(Gate, sink));
    }
  }

  /** A walk that fails has met an error. */
  lemma {:induction false} FailedWalkRejects<S>(body: Body<S>, state: S, nodes: seq<Node>)
    requires Walk(body, state, nodes).final.None?
    ensures !RejectsNothing(Walk(body, state, nodes).plan)
    decreases nodes
  {
    var first := WalkNode(body, state, nodes[0]);
    if first.final.None? {
      FailedNodeRejects(body, state, nodes[0]);
    } else {
      FailedWalkRejects(body, first.final.value, nodes[1..]);
      RejectsNothingConcat(first.plan, Walk(body, first.final.value, nodes[1..]).plan);
    }
  }

  lemma {:induction false} FailedNodeRejects<S>(body: Body<S>, state: S, node: Node)
    requires WalkNode(body, state, node).final.None?
    ensures !RejectsNothing(WalkNode(body, state, node).plan)
    decreases node
  {
    match node {
      case Leaf(event) =>
        FailedOnceRejects(body, state, event);
      case Element(name, head, children) =>
        var atStart := Once(body, state, Start(name, head));
        if atStart.final.None? {
          FailedOnceRejects(body, state, Start(name, head));
        } else {
          var inner := Walk(body, atStart.final.value, children);
          RejectsNothingConcat(atStart.plan, inner.plan);
          if inner.final.None? {
            FailedWalkRejects(body, atStart.final.value, children);
          } else {
            FailedOnceRejects(body, inner.final.value, End(name));
            var closed := Once(body, inner.final.value, End(name));
            RejectsNothingConcat(atStart.plan + inner.plan, closed.plan);
          }
        }
    }
  }

  lemma FailedOnceRejects<S>(body: Body<S>, state: S, event: Event)
    requires Once(body, state, event).final.None?
    ensures !RejectsNothing(Once(body, state, event).plan)
  {
    assert Once(body, state, event).plan[1].Reject?;
  }

  /** No element of this name inside another one. */
  predicate Apart(nodes: seq<Node>, name: Name, inside: bool) {
    nodes == [] || (NodeApart(nodes[0], name, inside) && Apart(nodes[1..], name, inside))
  }

  predicate NodeApart(node: Node, name: Name, inside: bool) {
    node.Element? ==>
      !(inside && node.name == name) && Apart(node.children, name, inside || node.name == name)
  }

  /** How many elements of this name a forest has. */
  function Count(nodes: seq<Node>, name: Name): nat {
    if nodes == [] then 0 else NodeCount(nodes[0], name) + Count(nodes[1..], name)
  }

  function NodeCount(node: Node, name: Name): nat {
    if node.Leaf? then 0
    else (if node.name == name then 1 else 0) + Count(node.children, name)
  }

  lemma OneNode(node: Node, name: Name, inside: bool)
    ensures Count([node], name) == NodeCount(node, name)
    ensures Apart([node], name, inside) <==> NodeApart(node, name, inside)
  {
    assert [node][1..] == [];
  }

  lemma {:induction false} NoneInside(nodes: seq<Node>, name: Name)
    requires Apart(nodes, name, true)
    ensures Count(nodes, name) == 0
    decreases nodes
  {
    if nodes != [] {
      NoneInside(nodes[1..], name);
      if nodes[0].Element? {
        NoneInside(nodes[0].children, name);
      }
    }
  }

  lemma {:induction false} ApartOutside(nodes: seq<Node>, name: Name)
    requires Apart(nodes, name, true)
    ensures Apart(nodes, name, false)
    decreases nodes
  {
    if nodes != [] {
      ApartOutside(nodes[1..], name);
      if nodes[0].Element? {
        ApartOutside(nodes[0].children, name);
      }
    }
  }

  /** A step or a walk that emits nothing and meets no error. */
  predicate Silent(plan: seq<Step>) {
    HasNoPieces(plan) && RejectsNothing(plan)
  }

  lemma SilentConcat(a: seq<Step>, b: seq<Step>)
    requires Silent(a) && Silent(b)
    ensures Silent(a + b)
  {
  }

  lemma NothingToReject()
    ensures RejectsNothing([])
  {
  }

  lemma GateRejectsNothing()
    ensures RejectsNothing([Gate]) && Silent([Gate])
  {
  }

  lemma NothingIsSilent()
    ensures Silent([])
  {
  }

  /** An element around something silent is silent. */
  lemma SilentElement(inner: seq<Step>)
    requires Silent(inner)
    ensures Silent([Gate] + inner + ([Gate] + []))
  {
  }

  /** A plan between the checks of a start and an end tag. */
  lemma Surrounded(inner: seq<Step>, emitted: seq<Step>)
    ensures var plan := [Gate] + inner + ([Gate] + emitted);
            && PiecesOf(plan) == PiecesOf(inner) + PiecesOf(emitted)
            && (RejectsNothing(plan) <==> RejectsNothing(inner) && RejectsNothing(emitted))
  {
    hide PiecesOf;
    WithoutPieces([Gate]);
    PiecesOfConcat([Gate] + inner, [Gate] + emitted);
    PiecesOfConcat([Gate], inner);
    PiecesOfConcat([Gate], emitted);
    RejectsNothingConcat([Gate] + inner, [Gate] + emitted);
    RejectsNothingConcat([Gate], inner);
    RejectsNothingConcat([Gate], emitted);
  }

  /** A parser that emits nothing but pieces. */
  ghost predicate EmitsPieces<S(!new)>(body: Body<S>) {
    forall state: S, event: Event ::
      body(state, event).Next? ==> PiecesOf(body(state, event).emitted) == body(state, event).emitted
  }

  lemma {:induction false} OneCheckEach<S(!new)>(
    body: Body<S>, guard: Guard, state: S, events: seq<Event>)
    requires EmitsPieces(body) && Run(body, guard, state, events).final.Some?
    ensures var plan := Run(body, guard, state, events).plan;
            |plan| == |events| + |PiecesOf(plan)|
    decreases |events|
  {
    hide PiecesOf;
    if events == [] {
      WithoutPieces([]);
    } else {
      var first := WatchedOnce(body, guard, state, events[0]);
      var emitted := body(state, events[0]).emitted;
      var next := first.final.value;
      OneCheckEach(body, next.guard, next.state, events[1..]);
      assert first.plan == [Gate] + emitted;
      WithoutPieces([Gate]);
      PiecesOfConcat([Gate], emitted);
      PiecesOfConcat(first.plan, Run(body, next.guard, next.state, events[1..]).plan);
    }
  }

  /** A stream that is taken is checked once for each event, once at its end, and once for each piece. */
  lemma ChecksOfStream<S(!new)>(body: Body<S>, complete: S -> bool, state: S, events: seq<Event>)
    requires EmitsPieces(body)
    requires RejectsNothing(StreamPlan(body, complete, Guard(0, 0), state, events))
    ensures var plan := StreamPlan(body, complete, Guard(0, 0), state, events);
            |plan| == |events| + 1 + |PiecesOf(plan)|
  {
    hide PiecesOf, Run, EmitsPieces;
    var run := Run(body, Guard(0, 0), state, events);
    if run.final.None? {
      FailedRunRejects(body, Guard(0, 0), state, events);
    } else {
      var end := EndPlan(run.final.value.guard, complete(run.final.value.state));
      OneCheckEach(body, Guard(0, 0), state, events);
      assert end == [Gate] || (|end| == 2 && end[1].Reject?);
      RejectsNothingConcat(run.plan, end);
      WithoutPieces([Gate]);
      PiecesOfConcat(run.plan, end);
    }
  }
}
