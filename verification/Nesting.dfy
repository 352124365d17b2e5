/**
 Which event streams are those of a tree: exactly the streams whose tags nest by name, which is what
 the XML reader checks; and each of them is the stream of one tree only.
 */
module Nesting {
  import opened Wrappers
  import opened Xml

  /** Every end tag has the name of the last start tag that is still open, and all are closed in the
      end. `open` lists the names of the open elements, the innermost first. */
  predicate Nests(events: seq<Event>, open: seq<Name>)
    decreases |events|
  {
    if events == [] then open == []
    else if events[0].Start? then Nests(events[1..], [events[0].name] + open)
    else if events[0].End? then
      open != [] && open[0] == events[0].name && Nests(events[1..], open[1..])
    else Nests(events[1..], open)
  }

  /** Leaves are single events, not tags. */
  predicate Proper(nodes: seq<Node>) {
    nodes == [] || (ProperNode(nodes[0]) && Proper(nodes[1..]))
  }

  predicate ProperNode(node: Node) {
    match node
    case Leaf(event) => !event.Start? && !event.End?
    case Element(_, _, children) => Proper(children)
  }

  predicate Stops(rest: seq<Event>) {
    rest == [] || rest[0].End?
  }

  datatype Parsed = Parsed(nodes: seq<Node>, rest: seq<Event>)

  /** The forest at the front of a stream, up to an end tag that closes none of its elements. */
  function Parse(events: seq<Event>): (result: Option<Parsed>)
    ensures result.Some? ==> |result.value.rest| <= |events|
    decreases |events|
  {
    if Stops(events) then Some(Parsed([], events))
    else if !events[0].Start? then Follow(Leaf(events[0]), Parse(events[1..]))
    else
      var inner := Parse(events[1..]);
      if inner.None? || inner.value.rest == [] || inner.value.rest[0] != End(events[0].name) then None
      else
        Follow(Element(events[0].name, events[0].head, inner.value.nodes),
               Parse(inner.value.rest[1..]))
  }

  function Follow(node: Node, rest: Option<Parsed>): Option<Parsed> {
    if rest.None? then None else Some(Parsed([node] + rest.value.nodes, rest.value.rest))
  }

  /** A forest is parsed back from its stream. */
  lemma {:induction false} ParseFlattens(nodes: seq<Node>, rest: seq<Event>)
    requires Proper(nodes) && Stops(rest)
    ensures Parse(Flatten(nodes) + rest) == Some(Parsed(nodes, rest))
    decreases nodes
  {
    hide Parse, Stops, ProperNode, FlattenNode;
    if nodes == [] {
      ParseStops(rest);
    } else {
      var node, tail := nodes[0], nodes[1..];
      var after := Flatten(tail) + rest;
      ParseFlattens(tail, rest);
      FirstNode(nodes, rest);
      ParseFlattensNode(node, after);
      assert [node] + tail == nodes;
    }
  }

  lemma ParseStops(rest: seq<Event>)
    requires Stops(rest)
    ensures Parse([] + rest) == Some(Parsed([], rest))
  {
    assert [] + rest == rest;
  }

  lemma FirstNode(nodes: seq<Node>, rest: seq<Event>)
    requires nodes != []
    ensures Flatten(nodes) + rest == FlattenNode(nodes[0]) + (Flatten(nodes[1..]) + rest)
  {
    hide FlattenNode;
  }

  lemma {:induction false} ParseFlattensNode(node: Node, after: seq<Event>)
    requires ProperNode(node)
    ensures Parse(FlattenNode(node) + after) == Follow(node, Parse(after))
    decreases node
  {
    match node {
      case Leaf(event) =>
        LeafFront(event, after);
      case Element(name, head, children) =>
        hide Parse;
        var close := [End(name)] + after;
        StopsAtEnd(name, after);
        ParseFlattens(children, close);
        ElementFront(node, after);
        ParseElement(node, close, after);
    }
  }

  lemma LeafFront(event: Event, after: seq<Event>)
    requires !event.Start? && !event.End?
    ensures Parse(FlattenNode(Leaf(event)) + after) == Follow(Leaf(event), Parse(after))
  {
    var events := FlattenNode(Leaf(event)) + after;
    assert events[0] == event && events[1..] == after;
  }

  lemma StopsAtEnd(name: Name, after: seq<Event>)
    ensures Stops([End(name)] + after) && ([End(name)] + after)[1..] == after
  {
  }

  lemma ElementFront(node: Node, after: seq<Event>)
    requires node.Element?
    ensures FlattenNode(node) + after
         == [Start(node.name, node.head)] + (Flatten(node.children) + ([End(node.name)] + after))
  {
    hide Flatten;
  }

  lemma ParseElement(node: Node, close: seq<Event>, after: seq<Event>)
    requires node.Element? && close == [End(node.name)] + after
    requires Parse(Flatten(node.children) + close) == Some(Parsed(node.children, close))
    ensures Parse([Start(node.name, node.head)] + (Flatten(node.children) + close))
         == Follow(node, Parse(after))
  {
    hide Flatten;
    var inside := Flatten(node.children) + close;
    assert ([Start(node.name, node.head)] + inside)[1..] == inside;
    assert close[1..] == after;
  }

  /** What is parsed is a proper forest, and its stream is what was parsed. */
  lemma {:induction false} ParseIsForest(events: seq<Event>)
    requires Parse(events).Some?
    ensures var parsed := Parse(events).value;
            && Proper(parsed.nodes) && Stops(parsed.rest)
            && events == Flatten(parsed.nodes) + parsed.rest
    decreases |events|
  {
    hide Proper, Flatten, ProperNode, FlattenNode;
    if Stops(events) {
      EmptyForest(events);
    } else {
      ParseIsForest(events[1..]);
      var inner := Parse(events[1..]).value;
      if !events[0].Start? {
        LeafStream(events);
        ConsForest(Leaf(events[0]), inner);
      } else {
        ParseIsForest(inner.rest[1..]);
        ElementStream(events, inner);
        ConsForest(Element(events[0].name, events[0].head, inner.nodes),
                   Parse(inner.rest[1..]).value);
      }
    }
  }

  lemma EmptyForest(rest: seq<Event>)
    ensures Proper([]) && Flatten([]) + rest == rest
  {
  }

  lemma LeafStream(events: seq<Event>)
    requires events != [] && !events[0].Start? && !events[0].End?
    ensures ProperNode(Leaf(events[0])) && events == FlattenNode(Leaf(events[0])) + events[1..]
  {
  }

  lemma ElementStream(events: seq<Event>, inner: Parsed)
    requires events != [] && events[0].Start? && Proper(inner.nodes)
    requires events[1..] == Flatten(inner.nodes) + inner.rest
    requires inner.rest != [] && inner.rest[0] == End(events[0].name)
    ensures var node := Element(events[0].name, events[0].head, inner.nodes);
            ProperNode(node) && events == FlattenNode(node) + inner.rest[1..]
  {
    var first, nodes, close := [events[0]], Flatten(inner.nodes), [inner.rest[0]];
    assert events == first + events[1..] && inner.rest == close + inner.rest[1..];
    assert first + (nodes + (close + inner.rest[1..])) == first + nodes + close + inner.rest[1..];
  }

  lemma ConsForest(node: Node, parsed: Parsed)
    requires ProperNode(node) && Proper(parsed.nodes)
    ensures Proper([node] + parsed.nodes)
    ensures Flatten([node] + parsed.nodes) + parsed.rest
         == FlattenNode(node) + (Flatten(parsed.nodes) + parsed.rest)
  {
    assert ([node] + parsed.nodes)[1..] == parsed.nodes;
  }

  /** A stream that nests is parsed up to the end tag of the innermost open element, or to its end. */
  lemma {:induction false} NestedIsParsed(events: seq<Event>, open: seq<Name>)
    requires Nests(events, open)
    ensures Parse(events).Some?
    ensures var rest := Parse(events).value.rest;
            if open == [] then rest == []
            else rest != [] && rest[0] == End(open[0]) && Nests(rest[1..], open[1..])
    decreases |events|
  {
    if events != [] && !events[0].End? {
      if events[0].Start? {
        var name := events[0].name;
        NestedIsParsed(events[1..], [name] + open);
        assert ([name] + open)[1..] == open;
        NestedIsParsed(Parse(events[1..]).value.rest[1..], open);
      } else {
        NestedIsParsed(events[1..], open);
      }
    }
  }

  /** The stream of a forest nests, whatever is open around it. */
  lemma {:induction false} ForestNests(nodes: seq<Node>, rest: seq<Event>, open: seq<Name>)
    requires Proper(nodes) && Nests(rest, open)
    ensures Nests(Flatten(nodes) + rest, open)
    decreases nodes
  {
    if nodes == [] {
      assert [] + rest == rest;
    } else {
      hide Nests, ProperNode, FlattenNode;
      ForestNests(nodes[1..], rest, open);
      FirstNode(nodes, rest);
      NodeNests(nodes[0], Flatten(nodes[1..]) + rest, open);
    }
  }

  lemma {:induction false} NodeNests(node: Node, after: seq<Event>, open: seq<Name>)
    requires ProperNode(node) && Nests(after, open)
    ensures Nests(FlattenNode(node) + after, open)
    decreases node
  {
    match node {
      case Leaf(event) =>
        var events := FlattenNode(node) + after;
        assert events[0] == event && events[1..] == after;
      case Element(name, head, children) =>
        hide Nests;
        var inside := Flatten(children) + ([End(name)] + after);
        EndNests(name, after, open);
        ForestNests(children, [End(name)] + after, [name] + open);
        ElementFront(node, after);
        StartNests(name, head, inside, open);
    }
  }

  lemma EndNests(name: Name, after: seq<Event>, open: seq<Name>)
    requires Nests(after, open)
    ensures Nests([End(name)] + after, [name] + open)
  {
    assert ([End(name)] + after)[1..] == after && ([name] + open)[1..] == open;
  }

  lemma StartNests(name: Name, head: Head, inside: seq<Event>, open: seq<Name>)
    requires Nests(inside, [name] + open)
    ensures Nests([Start(name, head)] + inside, open)
  {
    assert ([Start(name, head)] + inside)[1..] == inside;
  }

  /** A stream nests if and only if it is the stream of a proper forest, and then of one only. So what is
      stated of the streams of trees is stated of every stream that the reader yields to its end. */
  lemma NestsIffForest(events: seq<Event>)
    ensures Nests(events, []) <==> exists nodes :: Proper(nodes) && Flatten(nodes) == events
    ensures forall nodes, others ::
              (Proper(nodes) && Flatten(nodes) == events && Proper(others) && Flatten(others) == events)
              ==> nodes == others
  {
    hide Proper, Flatten, Nests, Parse;
    NothingNests();
    if Nests(events, []) {
      NestedIsParsed(events, []);
      ParseIsForest(events);
      var nodes := Parse(events).value.nodes;
      assert Flatten(nodes) + [] == Flatten(nodes);
    }
    forall nodes | Proper(nodes) && Flatten(nodes) == events
      ensures Nests(events, []) && Parse(events) == Some(Parsed(nodes, []))
    {
      ForestNests(nodes, [], []);
      ParseFlattens(nodes, []);
      assert Flatten(nodes) + [] == Flatten(nodes);
    }
  }

  lemma NothingNests()
    ensures Nests([], []) && Stops([])
  {
  }
}
