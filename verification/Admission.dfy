/**
 Which event streams the guard lets through, stated on the stream; and that the trees which it lets through
 are those of such streams.
 */
module Admission {
  import opened Wrappers
  import opened Utf8
  import opened Execution
  import opened Xml
  import opened Nesting

  /** At most 128 attributes, all of them readable and none too large, under a name that is not too long. */
  predicate HeadPasses(head: Head) {
    && head.nameBytes <= 256 && |head.attributes| <= 128
    && forall k :: 0 <= k < |head.attributes| ==> AttributePasses(head.attributes[k])
  }

  predicate AttributePasses(attribute: Attribute) {
    attribute.Attribute? && attribute.keyBytes <= 256 && attribute.valueBytes <= 256 * 1024
  }

  lemma {:induction false} AttributesPassIff(attributes: seq<Attribute>, count: nat)
    requires count <= 128
    ensures AttributeFault(attributes, count).None?
            <==> count + |attributes| <= 128
                 && forall k :: 0 <= k < |attributes| ==> AttributePasses(attributes[k])
    decreases |attributes|
  {
    if attributes != [] {
      assert attributes == [attributes[0]] + attributes[1..];
      if AttributePasses(attributes[0]) && count < 128 {
        AttributesPassIff(attributes[1..], count + 1);
      }
    }
  }

  /** The first attribute that does not pass decides what a head is refused for: as unreadable, or else for
      its size or its number. */
  lemma {:induction false} AttributeRefusedWith(attributes: seq<Attribute>, count: nat, k: nat)
    requires k < |attributes| && count + k <= 128
    requires forall j :: 0 <= j < k ==> AttributePasses(attributes[j])
    requires !AttributePasses(attributes[k]) || count + k == 128
    ensures AttributeFault(attributes, count)
         == Some(if attributes[k].BadAttribute? then InvalidOoxmlXml else OoxmlStructureLimitExceeded)
    decreases k
  {
    if k > 0 {
      assert AttributePasses(attributes[0]);
      AttributeRefusedWith(attributes[1..], count + 1, k - 1);
    }
  }

  lemma HeadPassesIff(head: Head)
    ensures HeadFault(head).None? <==> HeadPasses(head)
  {
    AttributesPassIff(head.attributes, 0);
  }

  /** Events that pass wherever they stand: no document type, no processing instruction, nothing malformed
      or under a prefix that is not declared, and no text node that is too large. */
  predicate EventPasses(event: Event) {
    match event
    case Start(name, head) => !name.namespace.Undeclared? && HeadPasses(head)
    case Empty(name, head) => !name.namespace.Undeclared? && HeadPasses(head)
    case End(name) => !name.namespace.Undeclared?
    case Characters(rawBytes, _) => rawBytes <= 256 * 1024
    case CData(rawBytes, _) => rawBytes <= 256 * 1024
    case GeneralRef(_) => true
    case Decl(_) => true
    case Comment => true
    case ProcessingInstruction => false
    case DocType => false
    case Malformed => false
  }

  /** The depth after a stretch of a stream is at most 128. */
  predicate DepthPasses(depth: nat, events: seq<Event>) {
    var after := DepthAfter(depth, events);
    after.Some? && after.value <= 128
  }

  /** Every event passes, and after each of them at most 128 elements are open. */
  predicate StreamPasses(depth: nat, events: seq<Event>) {
    && (forall k :: 0 <= k < |events| ==> EventPasses(events[k]))
    && (forall n :: 0 <= n <= |events| ==> DepthPasses(depth, events[..n]))
  }

  /** The guard lets a stream through, event by event. */
  predicate Admits(guard: Guard, events: seq<Event>)
    decreases |events|
  {
    events == []
    || (AdmissionFault(guard, events[0]).None? && Admits(Observed(guard, events[0]), events[1..]))
  }

  function DepthThen(depth: nat, event: Event): Option<nat> {
    if event.Start? then Some(depth + 1)
    else if !event.End? then Some(depth)
    else if depth == 0 then None
    else Some(depth - 1)
  }

  lemma FirstPasses(depth: nat, events: seq<Event>)
    requires events != [] && depth <= 128
    ensures var next := DepthThen(depth, events[0]);
            StreamPasses(depth, events)
            <==> && EventPasses(events[0]) && next.Some? && next.value <= 128
                 && StreamPasses(next.value, events[1..])
  {
    hide EventPasses;
    var next, rest := DepthThen(depth, events[0]), events[1..];
    assert events[..0] == [];
    assert events == [events[0]] + rest;
    forall n | 0 < n <= |events|
      ensures DepthPasses(depth, events[..n])
              <==> next.Some? && DepthPasses(next.value, rest[..n - 1])
    {
      assert events[..n][0] == events[0] && events[..n][1..] == rest[..n - 1];
    }
    if StreamPasses(depth, events) {
      assert DepthPasses(depth, events[..1]) && rest[..0] == [];
      forall n | 0 <= n <= |rest| ensures DepthPasses(next.value, rest[..n]) {
        assert DepthPasses(depth, events[..n + 1]);
      }
      forall k | 0 <= k < |rest| ensures EventPasses(rest[k]) {
        assert EventPasses(events[k + 1]);
      }
    }
  }

  lemma GuardIs(guard: Guard, event: Event)
    requires guard.depth <= 128
    ensures var next := DepthThen(guard.depth, event);
            AdmissionFault(guard, event).None?
            <==> guard.events < 1_000_000 && EventPasses(event) && next.Some? && next.value <= 128
    ensures AdmissionFault(guard, event).None? ==>
              Observed(guard, event)
              == Guard(DepthThen(guard.depth, event).value, guard.events + 1)
  {
    hide HeadFault, HeadPasses;
    if event.Start? || event.Empty? {
      HeadPassesIff(event.head);
    }
  }

  /** The guard lets through exactly the streams of at most a million events that pass. */
  lemma {:induction false} AdmitsIff(guard: Guard, events: seq<Event>)
    requires guard.depth <= 128 && guard.events <= 1_000_000
    ensures Admits(guard, events)
            <==> guard.events + |events| <= 1_000_000 && StreamPasses(guard.depth, events)
    decreases |events|
  {
    hide GuardFault, EventPasses, DepthThen, StreamPasses;
    if events == [] {
      NothingPasses(guard.depth);
    } else {
      GuardIs(guard, events[0]);
      FirstPasses(guard.depth, events);
      if AdmissionFault(guard, events[0]).None? {
        AdmitsIff(Observed(guard, events[0]), events[1..]);
      }
    }
  }

  lemma NothingPasses(depth: nat)
    requires depth <= 128
    ensures StreamPasses(depth, [])
  {
  }

  /** A body that never objects gets through exactly the streams that the guard lets through. */
  lemma {:induction false} UnopposedIff<S>(body: Body<S>, guard: Guard, state: S, events: seq<Event>)
    requires forall s: S, event: Event :: body(s, event).Next?
    ensures Run(body, guard, state, events).final.Some? <==> Admits(guard, events)
    decreases |events|
  {
    hide GuardFault;
    if events != [] && AdmissionFault(guard, events[0]).None? {
      UnopposedIff(body, Observed(guard, events[0]), body(state, events[0]).state, events[1..]);
    }
  }

  lemma {:induction false} PassesConcat(depth: nat, a: seq<Event>, b: seq<Event>)
    requires depth <= 128
    ensures StreamPasses(depth, a + b)
            <==> && StreamPasses(depth, a)
                 && DepthAfter(depth, a).Some? && DepthAfter(depth, a).value <= 128
                 && StreamPasses(DepthAfter(depth, a).value, b)
    decreases |a|
  {
    hide EventPasses, StreamPasses;
    if a == [] {
      assert a + b == b;
      NothingPasses(depth);
    } else {
      assert (a + b)[0] == a[0] && (a + b)[1..] == a[1..] + b;
      FirstPasses(depth, a + b);
      FirstPasses(depth, a);
      var next := DepthThen(depth, a[0]);
      if next.Some? && next.value <= 128 {
        PassesConcat(next.value, a[1..], b);
      }
    }
  }

  /** The stream of a forest ends at the depth at which it begins. */
  lemma {:induction false} ForestKeepsDepth(depth: nat, nodes: seq<Node>, rest: seq<Event>)
    requires Proper(nodes)
    ensures DepthAfter(depth, Flatten(nodes) + rest) == DepthAfter(depth, rest)
    decreases nodes
  {
    hide DepthAfter, ProperNode, FlattenNode;
    if nodes == [] {
      assert [] + rest == rest;
    } else {
      FirstNode(nodes, rest);
      NodeKeepsDepth(depth, nodes[0], Flatten(nodes[1..]) + rest);
      ForestKeepsDepth(depth, nodes[1..], rest);
    }
  }

  lemma {:induction false} NodeKeepsDepth(depth: nat, node: Node, rest: seq<Event>)
    requires ProperNode(node)
    ensures DepthAfter(depth, FlattenNode(node) + rest) == DepthAfter(depth, rest)
    decreases node
  {
    match node {
      case Leaf(event) =>
        var events := FlattenNode(node) + rest;
        assert events[0] == event && events[1..] == rest;
      case Element(name, head, children) =>
        hide DepthAfter;
        var close := [End(name)] + rest;
        ElementFront(node, rest);
        TagsKeepDepth(depth, name, head, Flatten(children) + close, rest);
        ForestKeepsDepth(depth + 1, children, close);
    }
  }

  lemma TagsKeepDepth(depth: nat, name: Name, head: Head, inside: seq<Event>, rest: seq<Event>)
    ensures DepthAfter(depth, [Start(name, head)] + inside) == DepthAfter(depth + 1, inside)
    ensures DepthAfter(depth + 1, [End(name)] + rest) == DepthAfter(depth, rest)
  {
    assert ([Start(name, head)] + inside)[1..] == inside && ([End(name)] + rest)[1..] == rest;
  }

  /** The trees that count as acceptable are those of streams that pass. */
  lemma {:induction false} AcceptableIff(nodes: seq<Node>, depth: nat)
    requires Proper(nodes) && depth <= 128
    ensures Acceptable(nodes, depth) <==> StreamPasses(depth, Flatten(nodes))
    decreases nodes
  {
    hide StreamPasses, ProperNode, FlattenNode, DepthAfter;
    if nodes == [] {
      NothingPasses(depth);
    } else {
      var node, tail := nodes[0], nodes[1..];
      PassesConcat(depth, FlattenNode(node), Flatten(tail));
      NodeEndsDepth(depth, node);
      AcceptableIff(tail, depth);
      NodeAcceptableIff(node, depth);
      SplitAcceptable(nodes, depth);
    }
  }

  lemma NodeEndsDepth(depth: nat, node: Node)
    requires ProperNode(node)
    ensures DepthAfter(depth, FlattenNode(node)) == Some(depth)
  {
    NodeKeepsDepth(depth, node, []);
    assert FlattenNode(node) + [] == FlattenNode(node);
    assert DepthAfter(depth, []) == Some(depth);
  }

  lemma SplitAcceptable(nodes: seq<Node>, depth: nat)
    requires nodes != []
    ensures Acceptable(nodes, depth) <==> Acceptable([nodes[0]], depth) && Acceptable(nodes[1..], depth)
  {
    assert [nodes[0]][1..] == [];
  }

  lemma {:induction false} NodeAcceptableIff(node: Node, depth: nat)
    requires ProperNode(node) && depth <= 128
    ensures Acceptable([node], depth) <==> StreamPasses(depth, FlattenNode(node))
    decreases node
  {
    assert [node][1..] == [];
    match node {
      case Leaf(event) =>
        LeafAcceptableIff(event, depth);
      case Element(name, head, children) =>
        hide StreamPasses, DepthAfter, HeadFault, HeadPasses;
        var start, inside := Start(name, head), Flatten(children);
        HeadPassesIff(head);
        assert FlattenNode(node) == [start] + (inside + [End(name)]);
        assert ([start] + (inside + [End(name)]))[1..] == inside + [End(name)];
        FirstPasses(depth, FlattenNode(node));
        if depth < 128 {
          PassesConcat(depth + 1, inside, [End(name)]);
          ForestKeepsDepth(depth + 1, children, []);
          assert inside + [] == inside;
          NoEvents(depth + 1);
          EndPasses(depth + 1, name);
          AcceptableIff(children, depth + 1);
        }
    }
  }

  lemma NoEvents(depth: nat)
    ensures DepthAfter(depth, []) == Some(depth)
  {
  }

  lemma EndPasses(depth: nat, name: Name)
    requires 0 < depth <= 128
    ensures StreamPasses(depth, [End(name)]) <==> !name.namespace.Undeclared?
  {
    FirstPasses(depth, [End(name)]);
    assert [End(name)][1..] == [];
    NothingPasses(depth - 1);
  }

  lemma LeafAcceptableIff(event: Event, depth: nat)
    requires !event.Start? && !event.End? && depth <= 128
    ensures Acceptable([Leaf(event)], depth) <==> StreamPasses(depth, [event])
  {
    hide HeadFault, HeadPasses, StreamPasses;
    assert [Leaf(event)][1..] == [] && [event][1..] == [];
    FirstPasses(depth, [event]);
    NothingPasses(depth);
    if event.Empty? {
      HeadPassesIff(event.head);
    }
  }

  /** What is stated of readable trees is stated of all streams that nest, pass, and have fewer than a
      million events, and of no others. */
  lemma ReadableIff(tree: seq<Node>)
    requires Proper(tree)
    ensures Readable(tree)
            <==> |Flatten(tree)| < 1_000_000 && StreamPasses(0, Flatten(tree))
  {
    hide Acceptable, StreamPasses, Flatten, Proper;
    AcceptableIff(tree, 0);
  }

  /** What an event is refused for: an error of the reader or of its prefixes comes first, then the number of
      events, and then what is wrong with the event itself. */
  lemma GuardRefusedWith(guard: Guard, event: Event)
    requires AdmissionFault(guard, event).Some?
    ensures var error := AdmissionFault(guard, event).value;
            if event.Malformed? || ((event.Start? || event.Empty? || event.End?)
                                    && event.name.namespace.Undeclared?)
            then error == InvalidOoxmlXml
            else if guard.events >= 1_000_000 then error == OoxmlStructureLimitExceeded
            else if event.ProcessingInstruction? || event.DocType? || event.End? then
              error == InvalidOoxmlXml
            else if event.Characters? || event.CData? then error == OoxmlStructureLimitExceeded
            else
              && (event.Start? || event.Empty?)
              && (event.head.nameBytes > 256 || HeadPasses(event.head) ==>
                    error == OoxmlStructureLimitExceeded)
              && (event.head.nameBytes <= 256 && !HeadPasses(event.head) ==>
                    Some(error) == AttributeFault(event.head.attributes, 0))
  {
    hide AttributeFault, HeadPasses;
    if event.Start? || event.Empty? {
      HeadPassesIff(event.head);
    }
  }

  lemma {:induction false} RunCountsEvents<S>(
    body: Body<S>, guard: Guard, state: S, events: seq<Event>)
    ensures var run := Run(body, guard, state, events);
            run.final.Some? ==> run.final.value.guard.events == guard.events + |events|
    decreases |events|
  {
    if events != [] {
      var first := WatchedOnce(body, guard, state, events[0]);
      if first.final.Some? {
        RunCountsEvents(body, first.final.value.guard, first.final.value.state, events[1..]);
      }
    }
  }

  /** The end of a stream counts as an event as well: a million of others are refused by every parser. */
  lemma MillionIsRefused<S>(body: Body<S>, complete: S -> bool, state: S, events: seq<Event>)
    requires |events| >= 1_000_000
    ensures !RejectsNothing(StreamPlan(body, complete, Guard(0, 0), state, events))
  {
    hide Run;
    var run := Run(body, Guard(0, 0), state, events);
    RunCountsEvents(body, Guard(0, 0), state, events);
    if run.final.None? {
      FailedRunRejects(body, Guard(0, 0), state, events);
    } else {
      var end := EndPlan(run.final.value.guard, complete(run.final.value.state));
      assert end[1].Reject?;
      RejectsNothingConcat(run.plan, end);
    }
  }
}
